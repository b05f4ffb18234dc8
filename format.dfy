/**
 `Value::format`: the XML fragment a value is written as.

 The source writes the fragment line by line into an `io::Write` sink with
 `writeln!`.  `Serialized` is the whole text as one function of the value;
 `Format` is the line-by-line writer, a recursive method over a `Sink`,
 proved to append exactly `Serialized(v)`.

 Three payloads are rendered by code outside this model: `f64` by Rust's
 `{}`, a `DateTime` by `format_datetime` and bytes by `base64::encode`.
 They are the fields of a `Renderers` value, any total function of the
 payload.
 */
module Serializer {

  import opened Wrappers
  import opened Values
  import opened XmlText
  import opened Structs

  datatype Renderers = Renderers(
    double: F64 -> string,
    dateTime: Timestamp -> string,
    base64: seq<byte> -> string)

  /** What one `writeln!` appends: the text and a line feed. */
  function Line(s: string): string
  {
    s + "\n"
  }

  /** The fragment `Value::format` writes for `v`. */
  function Serialized(v: Value, r: Renderers): string
    decreases v, 1
  {
    Line("<value>") + Content(v, r) + Line("</value>")
  }

  /** What `format` writes between `<value>` and `</value>`, by variant. */
  function Content(v: Value, r: Renderers): string
    decreases v, 0
  {
    match v
    case Int(i) => Line("<i4>" + Decimal(i as int) + "</i4>")
    case Bool(b) => Line("<boolean>" + (if b then "1" else "0") + "</boolean>")
    case String(s) => Line("<string>" + Escape(s) + "</string>")
    case Double(d) => Line("<double>" + r.double(d) + "</double>")
    case DateTime(t) => Line("<dateTime.iso8601>" + r.dateTime(t) + "</dateTime.iso8601>")
    case Base64(data) => Line("<base64>" + r.base64(data) + "</base64>")
    case Struct(ms) => Line("<struct>") + MembersXml(ms, r) + Line("</struct>")
    case Array(vs) => Line("<array>") + Line("<data>") + ElementsXml(vs, r) + Line("</data>") + Line("</array>")
  }

  /** The `<member>` block of one struct entry. */
  function MemberXml(m: Member, r: Renderers): string
    decreases m
  {
    Line("<member>") + Line("<name>" + Escape(m.name) + "</name>") + Serialized(m.value, r) + Line("</member>")
  }

  /** The member blocks of a struct, in the order of `ms`. */
  function MembersXml(ms: seq<Member>, r: Renderers): string
    decreases ms
  {
    if ms == [] then "" else MembersXml(ms[..|ms| - 1], r) + MemberXml(ms[|ms| - 1], r)
  }

  /** The fragments of an array's elements, in the order of `vs`. */
  function ElementsXml(vs: seq<Value>, r: Renderers): string
    decreases vs
  {
    if vs == [] then "" else ElementsXml(vs[..|vs| - 1], r) + Serialized(vs[|vs| - 1], r)
  }

  /** Every fragment opens with a `<value>` line and closes with a `</value>` line. */
  lemma SerializedWrapped(v: Value, r: Renderers)
    ensures |Serialized(v, r)| >= 17
    ensures Serialized(v, r)[..8] == "<value>\n"
    ensures Serialized(v, r)[|Serialized(v, r)| - 9..] == "</value>\n"
  {
    var x := Serialized(v, r);
    assert x == "<value>\n" + (Content(v, r) + "</value>\n");
    assert x == ("<value>\n" + Content(v, r)) + "</value>\n";
  }

  /** A boolean is written as `1` or `0`, never as `true` or `false`. */
  lemma BoolSerialization(r: Renderers)
    ensures Serialized(Bool(true), r) == "<value>\n<boolean>1</boolean>\n</value>\n"
    ensures Serialized(Bool(false), r) == "<value>\n<boolean>0</boolean>\n</value>\n"
  {
    BoolLines(true, r);
    BoolLines(false, r);
    BoolTexts();
  }

  /** The fragment of a boolean, around its one-digit text. */
  lemma BoolLines(b: bool, r: Renderers)
    ensures Serialized(Bool(b), r) == "<value>\n<boolean>" + (if b then "1" else "0") + "</boolean>\n</value>\n"
  {
    var digit := if b then "1" else "0";
    var o, c := "<boolean>", "</boolean>";
    assert Serialized(Bool(b), r) == "<value>\n" + (o + digit + c) + "\n</value>\n" by {
      ValueLines(o + digit + c, r);
    }
    assert "<value>\n" + (o + digit + c) + "\n</value>\n" == ("<value>\n" + o) + digit + (c + "\n</value>\n");
    BoolTagJoins();
  }

  /** An `Int` is written in `<i4>` as its decimal text, which reads back as the same number. */
  lemma IntSerialization(n: i32, r: Renderers)
    ensures Serialized(Int(n), r) == "<value>\n<i4>" + Decimal(n as int) + "</i4>\n</value>\n"
    ensures ParseDecimal(Decimal(n as int)) == Some(n as int)
  {
    ParseDecimalInverse(n as int);
  }

  /**
   A `String` is written in `<string>` as its escaped text, which holds no
   raw `<` (so it cannot end the element early) and unescapes to the original.
   */
  lemma StringSerialization(s: string, r: Renderers)
    ensures Serialized(String(s), r) == "<value>\n<string>" + Escape(s) + "</string>\n</value>\n"
    ensures '<' !in Escape(s) && Unescape(Escape(s)) == s
  {
    EscapeHasNoRawLt(s);
    UnescapeEscape(s);
  }

  /** A `Double` is written in `<double>` as the rendering of the float. */
  lemma DoubleSerialization(d: F64, r: Renderers)
    ensures Serialized(Double(d), r) == "<value>\n<double>" + r.double(d) + "</double>\n</value>\n"
  {
  }

  /** A `DateTime` is written in `<dateTime.iso8601>` as the rendering of the timestamp. */
  lemma DateTimeSerialization(t: Timestamp, r: Renderers)
    ensures Serialized(DateTime(t), r)
      == "<value>\n<dateTime.iso8601>" + r.dateTime(t) + "</dateTime.iso8601>\n</value>\n"
  {
  }

  /** A `Base64` is written in `<base64>` as the encoding of the bytes. */
  lemma Base64Serialization(data: seq<byte>, r: Renderers)
    ensures Serialized(Base64(data), r) == "<value>\n<base64>" + r.base64(data) + "</base64>\n</value>\n"
  {
  }

  /** The fragment of the `escapes_strings` test. */
  lemma EscapesStringsExample(r: Renderers)
    ensures Serialized(FromStr("<" + "xml>" + "&" + "nbsp;string"), r)
      == "<value>\n<string>" + "&lt;" + "xml>" + "&amp;" + "nbsp;string" + "</string>\n</value>\n"
  {
    EscapeExample();
  }

  /** The `escapes_strings` test with its input and expected fragment written out whole. */
  lemma EscapesStringsVerbatim(r: Renderers)
    ensures Serialized(FromStr("<xml>&nbsp;string"), r)
      == "<value>\n<string>&lt;xml>&amp;nbsp;string</string>\n</value>\n"
  {
    StringsTestInput();
    EscapesStringsExample(r);
    StringsTestOutput();
  }

  /** The fragment of the `escapes_struct_member_names` test: a struct with the one entry `x&<x` => `true`. */
  lemma EscapesStructMemberNamesExample(r: Renderers)
    ensures Serialized(Struct(Insert([], "x" + "&" + "<" + "x", FromBool(true))), r)
      == "<value>\n<struct>\n<member>\n<name>" + ("x" + "&amp;" + "&lt;" + "x")
         + "</name>\n" + "<value>\n<boolean>1</boolean>\n</value>\n" + "</member>\n</struct>\n</value>\n"
  {
    var name := "x" + "&" + "<" + "x";
    var p, e, n, b, c := "<value>\n<struct>\n<member>\n<name>", Escape(name), "</name>\n",
      Serialized(Bool(true), r), "</member>\n</struct>\n</value>\n";
    assert Serialized(Struct(Insert([], name, FromBool(true))), r) == p + e + n + b + c by {
      assert Insert([], name, FromBool(true)) == [Member(name, Bool(true))];
      SingleMemberStructSerialization(name, Bool(true), r);
    }
    BoolSerialization(r);
    EscapeNameExample();
  }

  /** A struct with one entry. */
  lemma SingleMemberStructSerialization(name: string, v: Value, r: Renderers)
    ensures Serialized(Struct([Member(name, v)]), r)
      == "<value>\n<struct>\n<member>\n<name>" + Escape(name) + "</name>\n" + Serialized(v, r)
         + "</member>\n</struct>\n</value>\n"
  {
    var m := Member(name, v);
    var e, x := Escape(name), Serialized(v, r);
    var p, q, n, c, t := "<value>\n<struct>\n", "<member>\n<name>", "</name>\n", "</member>\n", "</struct>\n</value>\n";
    assert Serialized(Struct([m]), r) == (p + q) + e + n + x + (c + t) by {
      StructSerialization([m], r);
      MemberSerialization(m, r);
      Regroup(p, q, e, n, x, c, t);
    }
    StructOpeningLines();
    StructClosingLines();
  }

  /** Member blocks follow the member order: the blocks of a split list are the two lists' blocks. */
  lemma {:induction false} MembersXmlAppend(a: seq<Member>, b: seq<Member>, r: Renderers)
    ensures MembersXml(a + b, r) == MembersXml(a, r) + MembersXml(b, r)
  {
    if b == [] {
      assert a + b == a;
    } else {
      var c := a + b;
      assert c[..|c| - 1] == a + b[..|b| - 1];
      MembersXmlAppend(a, b[..|b| - 1], r);
    }
  }

  /** Array elements are written in sequence order. */
  lemma {:induction false} ElementsXmlAppend(a: seq<Value>, b: seq<Value>, r: Renderers)
    ensures ElementsXml(a + b, r) == ElementsXml(a, r) + ElementsXml(b, r)
  {
    if b == [] {
      assert a + b == a;
    } else {
      var c := a + b;
      assert c[..|c| - 1] == a + b[..|b| - 1];
      ElementsXmlAppend(a, b[..|b| - 1], r);
    }
  }

  /** An array is written as its elements' fragments, in order, inside `<array>` and `<data>`. */
  lemma ArraySerialization(vs: seq<Value>, r: Renderers)
    ensures Serialized(Array(vs), r)
      == "<value>\n<array>\n<data>\n" + ElementsXml(vs, r) + "</data>\n</array>\n</value>\n"
  {
    var open, e, close := Line("<value>") + Line("<array>") + Line("<data>"), ElementsXml(vs, r),
      Line("</data>") + Line("</array>") + Line("</value>");
    assert open == "<value>\n<array>\n<data>\n";
    assert close == "</data>\n</array>\n</value>\n";
    calc {
      Serialized(Array(vs), r);
      Line("<value>") + (Line("<array>") + Line("<data>") + e + Line("</data>") + Line("</array>")) + Line("</value>");
      { AppendAssoc5(Line("<value>"), Line("<array>"), Line("<data>"), e, Line("</data>"), Line("</array>")); }
      Line("<value>") + Line("<array>") + Line("<data>") + e + Line("</data>") + Line("</array>") + Line("</value>");
      { AppendAssoc3(open + e, Line("</data>"), Line("</array>"), Line("</value>")); }
      open + e + close;
    }
  }

  /** An empty array is just the wrappers. */
  lemma EmptyArraySerialization(r: Renderers)
    ensures Serialized(Array([]), r) == "<value>\n<array>\n<data>\n</data>\n</array>\n</value>\n"
  {
    ArraySerialization([], r);
  }

  /** A struct is written as its member blocks, in member order, inside `<struct>`. */
  lemma StructSerialization(ms: seq<Member>, r: Renderers)
    ensures Serialized(Struct(ms), r) == "<value>\n<struct>\n" + MembersXml(ms, r) + "</struct>\n</value>\n"
  {
    var open, body, close := Line("<value>") + Line("<struct>"), MembersXml(ms, r), Line("</struct>") + Line("</value>");
    assert open == "<value>\n<struct>\n";
    assert close == "</struct>\n</value>\n";
    calc {
      Serialized(Struct(ms), r);
      Line("<value>") + (Line("<struct>") + body + Line("</struct>")) + Line("</value>");
      { AppendAssoc3(Line("<value>"), Line("<struct>"), body, Line("</struct>")); }
      Line("<value>") + Line("<struct>") + body + Line("</struct>") + Line("</value>");
      { AppendAssoc2(open + body, Line("</struct>"), Line("</value>")); }
      open + body + close;
    }
  }

  /** Each member block holds the escaped name, then the value's own fragment. */
  lemma MemberSerialization(m: Member, r: Renderers)
    ensures MembersXml([m], r) == "<member>\n<name>" + Escape(m.name) + "</name>\n" + Serialized(m.value, r) + "</member>\n"
  {
    assert [m][..0] == [];
    var n := Line("<name>" + Escape(m.name) + "</name>");
    assert Line("<member>") + n == "<member>\n<name>" + Escape(m.name) + "</name>\n";
  }

  /**
   The text of a struct depends only on its entries: two well-formed member
   lists that hold the same entries are written identically.
   */
  lemma StructSerializationCanonical(a: seq<Member>, b: seq<Member>, r: Renderers)
    requires Sorted(a) && Sorted(b)
    requires forall k :: Get(a, k) == Get(b, k)
    ensures Serialized(Struct(a), r) == Serialized(Struct(b), r)
  {
    SameEntriesSameMembers(a, b);
  }

  /** So the order in which entries were inserted does not show in the output. */
  lemma InsertionOrderInvisible(ms: seq<Member>, k1: string, v1: Value, k2: string, v2: Value, r: Renderers)
    requires Sorted(ms) && k1 != k2
    ensures Serialized(Struct(Insert(Insert(ms, k1, v1), k2, v2)), r)
         == Serialized(Struct(Insert(Insert(ms, k2, v2), k1, v1)), r)
  {
    InsertOrderIrrelevant(ms, k1, v1, k2, v2);
  }

  lemma ElementsXmlSnoc(vs: seq<Value>, i: nat, r: Renderers)
    requires i < |vs|
    ensures ElementsXml(vs[..i + 1], r) == ElementsXml(vs[..i], r) + Serialized(vs[i], r)
  {
    assert vs[..i + 1][..i] == vs[..i];
  }

  lemma MembersXmlSnoc(ms: seq<Member>, i: nat, r: Renderers)
    requires i < |ms|
    ensures MembersXml(ms[..i + 1], r) == MembersXml(ms[..i], r) + MemberXml(ms[i], r)
  {
    assert ms[..i + 1][..i] == ms[..i];
  }

  /** The byte sink `W: Write` that `format` writes into; writing never fails here. */
  class Sink {
    var text: string

    constructor ()
      ensures text == ""
    {
      text := "";
    }

    /** `writeln!(fmt, "{}", s)`. */
    method WriteLine(s: string)
      modifies this
      ensures text == old(text) + Line(s)
    {
      text := text + Line(s);
    }
  }

  /** `Value::format`: appends the fragment of `v` to the sink, line by line. */
  method Format(v: Value, r: Renderers, sink: Sink)
    modifies sink
    ensures sink.text == old(sink.text) + Serialized(v, r)
    decreases v, 1
  {
    ghost var before := sink.text;
    sink.WriteLine("<value>");
    match v {
      case Int(i) =>
        sink.WriteLine("<i4>" + Decimal(i as int) + "</i4>");
      case Bool(b) =>
        sink.WriteLine("<boolean>" + (if b then "1" else "0") + "</boolean>");
      case String(s) =>
        sink.WriteLine("<string>" + Escape(s) + "</string>");
      case Double(d) =>
        sink.WriteLine("<double>" + r.double(d) + "</double>");
      case DateTime(t) =>
        sink.WriteLine("<dateTime.iso8601>" + r.dateTime(t) + "</dateTime.iso8601>");
      case Base64(data) =>
        sink.WriteLine("<base64>" + r.base64(data) + "</base64>");
      case Struct(ms) =>
        sink.WriteLine("<struct>");
        FormatMembers(v, ms, r, sink);
        sink.WriteLine("</struct>");
        AppendAssoc3(before + Line("<value>"), Line("<struct>"), MembersXml(ms, r), Line("</struct>"));
      case Array(vs) =>
        sink.WriteLine("<array>");
        sink.WriteLine("<data>");
        FormatElements(v, vs, r, sink);
        sink.WriteLine("</data>");
        sink.WriteLine("</array>");
        AppendAssoc5(before + Line("<value>"), Line("<array>"), Line("<data>"), ElementsXml(vs, r),
          Line("</data>"), Line("</array>"));
    }
    assert sink.text == before + Line("<value>") + Content(v, r);
    sink.WriteLine("</value>");
    AppendAssoc3(before, Line("<value>"), Content(v, r), Line("</value>"));
  }

  /** The `for (name, value) in map` loop of `format`, over the members of struct `v`. */
  method FormatMembers(ghost v: Value, ms: seq<Member>, r: Renderers, sink: Sink)
    requires v == Struct(ms)
    modifies sink
    ensures sink.text == old(sink.text) + MembersXml(ms, r)
    decreases v, 0
  {
    for i := 0 to |ms|
      invariant sink.text == old(sink.text) + MembersXml(ms[..i], r)
    {
      var m := ms[i];
      ghost var done := sink.text;
      sink.WriteLine("<member>");
      sink.WriteLine("<name>" + Escape(m.name) + "</name>");
      Format(m.value, r, sink);
      sink.WriteLine("</member>");
      AppendAssoc4(done, Line("<member>"), Line("<name>" + Escape(m.name) + "</name>"), Serialized(m.value, r),
        Line("</member>"));
      MembersXmlSnoc(ms, i, r);
      AppendAssoc2(old(sink.text), MembersXml(ms[..i], r), MemberXml(m, r));
    }
    assert ms[..|ms|] == ms;
  }

  /** The `for value in array` loop of `format`, over the elements of array `v`. */
  method FormatElements(ghost v: Value, vs: seq<Value>, r: Renderers, sink: Sink)
    requires v == Array(vs)
    modifies sink
    ensures sink.text == old(sink.text) + ElementsXml(vs, r)
    decreases v, 0
  {
    for i := 0 to |vs|
      invariant sink.text == old(sink.text) + ElementsXml(vs[..i], r)
    {
      ghost var done := sink.text;
      Format(vs[i], r, sink);
      ElementsXmlSnoc(vs, i, r);
      AppendAssoc2(old(sink.text), ElementsXml(vs[..i], r), Serialized(vs[i], r));
    }
    assert vs[..|vs|] == vs;
  }

  // ---- Sequence regrouping ----
  // Joins of string literals and regroupings of `+`: steps of the proofs
  // above, not properties of the serializer.

  lemma BoolTagJoins()
    ensures "<value>\n" + "<boolean>" == "<value>\n<boolean>"
    ensures "</boolean>" + "\n</value>\n" == "</boolean>\n</value>\n"
  {
  }

  lemma BoolTexts()
    ensures "<value>\n<boolean>" + "1" + "</boolean>\n</value>\n" == "<value>\n<boolean>1</boolean>\n</value>\n"
    ensures "<value>\n<boolean>" + "0" + "</boolean>\n</value>\n" == "<value>\n<boolean>0</boolean>\n</value>\n"
  {
  }

  /** A fragment whose content is the single line `body`. */
  lemma ValueLines(body: string, r: Renderers)
    ensures Line("<value>") + Line(body) + Line("</value>") == "<value>\n" + body + "\n</value>\n"
  {
  }

  lemma StructOpeningLines()
    ensures "<value>\n<struct>\n" + "<member>\n<name>" == "<value>\n<struct>\n<member>\n<name>"
  {
  }

  lemma StructClosingLines()
    ensures "</member>\n" + "</struct>\n</value>\n" == "</member>\n</struct>\n</value>\n"
  {
  }

  lemma Regroup(p: string, q: string, e: string, n: string, x: string, c: string, t: string)
    ensures p + (q + e + n + x + c) + t == (p + q) + e + n + x + (c + t)
  {
  }

  lemma AppendAssoc2(a: string, b: string, c: string)
    ensures a + b + c == a + (b + c)
  {
  }

  lemma AppendAssoc3(a: string, b: string, c: string, d: string)
    ensures a + b + c + d == a + (b + c + d)
  {
  }

  lemma AppendAssoc4(a: string, b: string, c: string, d: string, e: string)
    ensures a + b + c + d + e == a + (b + c + d + e)
  {
  }

  lemma AppendAssoc5(a: string, b: string, c: string, d: string, e: string, f: string)
    ensures a + b + c + d + e + f == a + (b + c + d + e + f)
  {
  }

  lemma StringsTestInput()
    ensures "<xml>&nbsp;string" == "<" + "xml>" + "&" + "nbsp;string"
  {
  }

  lemma StringsTestOutput()
    ensures "<value>\n<string>" + "&lt;" + "xml>" + "&amp;" + "nbsp;string" + "</string>\n</value>\n"
      == "<value>\n<string>&lt;xml>&amp;nbsp;string</string>\n</value>\n"
  {
  }
}
