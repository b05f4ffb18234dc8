/**
 The fragment `Value::format` writes is unambiguous: two different values
 are never written as the same text, and a fragment followed by any text
 ends at the same place however it is read.

 Every payload is written between an opening tag and a closing tag that
 starts with `<`, and no payload text holds a raw `<`: decimal numbers have
 none, `escape_xml` removes them, and the foreign renderings are required to
 have none.  The end of every payload is therefore the first `<` after its
 opening tag, and the variant is told apart by the first letters of its tag.
 */
module Unambiguous {

  import opened Values
  import opened XmlText
  import opened Structs
  import opened Serializer

  /**
   Renderings of `f64`, `DateTime` and bytes that hold no `<` and lose
   nothing.  Base64 text and ISO 8601 text hold no `<`; that they lose
   nothing is a condition on the renderers, not a fact about them.
   */
  ghost predicate Faithful(r: Renderers)
  {
    && (forall d :: '<' !in r.double(d))
    && (forall t :: '<' !in r.dateTime(t))
    && (forall b :: '<' !in r.base64(b))
    && (forall d1, d2 :: r.double(d1) == r.double(d2) ==> d1 == d2)
    && (forall t1, t2 :: r.dateTime(t1) == r.dateTime(t2) ==> t1 == t2)
    && (forall b1, b2 :: r.base64(b1) == r.base64(b2) ==> b1 == b2)
  }

  /** Different values are written as different fragments. */
  lemma SerializedInjective(v: Value, w: Value, r: Renderers)
    requires Faithful(r)
    requires Serialized(v, r) == Serialized(w, r)
    ensures v == w
  {
    SerializedPrefixUnique(v, w, [], [], r);
  }

  /**
   Two structs are written as the same text exactly when they hold the same
   entries, whatever order those were inserted in.
   */
  lemma StructTextIffSameEntries(a: seq<Member>, b: seq<Member>, r: Renderers)
    requires Faithful(r) && Sorted(a) && Sorted(b)
    ensures Serialized(Struct(a), r) == Serialized(Struct(b), r) ==> forall k :: Get(a, k) == Get(b, k)
    ensures (forall k :: Get(a, k) == Get(b, k)) ==> Serialized(Struct(a), r) == Serialized(Struct(b), r)
  {
    if Serialized(Struct(a), r) == Serialized(Struct(b), r) {
      SerializedInjective(Struct(a), Struct(b), r);
    }
    if forall k :: Get(a, k) == Get(b, k) {
      StructSerializationCanonical(a, b, r);
    }
  }

  /**
   A fragment is never a proper prefix of another: when a fragment followed
   by some text equals another fragment followed by some text, the two
   values and the two texts are equal.
   */
  lemma {:induction false} SerializedPrefixUnique(v: Value, w: Value, x: string, y: string, r: Renderers)
    requires Faithful(r)
    requires Serialized(v, r) + x == Serialized(w, r) + y
    ensures v == w && x == y
    decreases v, 1
  {
    var open, close := Line("<value>"), Line("</value>");
    AppendAssoc3(open, Content(v, r), close, x);
    AppendAssoc3(open, Content(w, r), close, y);
    StripPrefix(open, Content(v, r) + close + x, Content(w, r) + close + y);
    AppendAssoc2(Content(v, r), close, x);
    AppendAssoc2(Content(w, r), close, y);
    ContentPrefixUnique(v, w, close + x, close + y, r);
    StripPrefix(close, x, y);
  }

  /** The same for what is written between `<value>` and `</value>`. */
  lemma {:induction false} ContentPrefixUnique(v: Value, w: Value, x: string, y: string, r: Renderers)
    requires Faithful(r)
    requires Content(v, r) + x == Content(w, r) + y
    ensures v == w && x == y
    decreases v, 0
  {
    SameVariant(v, w, x, y, r);
    match v
    case Int(i) =>
      DecimalHasNoLt(i as int);
      DecimalHasNoLt(w.i as int);
      PayloadPrefixUnique("<i4>", Decimal(i as int), Decimal(w.i as int), "</i4>", x, y);
      DecimalInjective(i as int, w.i as int);
    case Bool(b) =>
      PayloadPrefixUnique("<boolean>", if b then "1" else "0", if w.b then "1" else "0", "</boolean>", x, y);
    case String(s) =>
      EscapeHasNoRawLt(s);
      EscapeHasNoRawLt(w.s);
      PayloadPrefixUnique("<string>", Escape(s), Escape(w.s), "</string>", x, y);
      UnescapeEscape(s);
      UnescapeEscape(w.s);
    case Double(d) =>
      PayloadPrefixUnique("<double>", r.double(d), r.double(w.d), "</double>", x, y);
    case DateTime(t) =>
      PayloadPrefixUnique("<dateTime.iso8601>", r.dateTime(t), r.dateTime(w.t), "</dateTime.iso8601>", x, y);
    case Base64(data) =>
      PayloadPrefixUnique("<base64>", r.base64(data), r.base64(w.data), "</base64>", x, y);
    case Struct(ms) =>
      var open, close := Line("<struct>"), Line("</struct>");
      AppendAssoc3(open, MembersXml(ms, r), close, x);
      AppendAssoc3(open, MembersXml(w.members, r), close, y);
      StripPrefix(open, MembersXml(ms, r) + close + x, MembersXml(w.members, r) + close + y);
      AppendAssoc2(MembersXml(ms, r), close, x);
      AppendAssoc2(MembersXml(w.members, r), close, y);
      MembersPrefixUnique(ms, w.members, close + x, close + y, r);
      StripPrefix(close, x, y);
    case Array(vs) =>
      var open, close := Line("<array>") + Line("<data>"), Line("</data>") + Line("</array>");
      ArrayContent(vs, r);
      ArrayContent(w.elements, r);
      AppendAssoc3(open, ElementsXml(vs, r), close, x);
      AppendAssoc3(open, ElementsXml(w.elements, r), close, y);
      StripPrefix(open, ElementsXml(vs, r) + close + x, ElementsXml(w.elements, r) + close + y);
      AppendAssoc2(ElementsXml(vs, r), close, x);
      AppendAssoc2(ElementsXml(w.elements, r), close, y);
      ElementsPrefixUnique(vs, w.elements, close + x, close + y, r);
      StripPrefix(close, x, y);
  }

  /** Member blocks followed by a closing tag are read back as the same members. */
  lemma {:induction false} MembersPrefixUnique(ms: seq<Member>, ns: seq<Member>, x: string, y: string, r: Renderers)
    requires Faithful(r)
    requires ClosingTag(x) && ClosingTag(y)
    requires MembersXml(ms, r) + x == MembersXml(ns, r) + y
    ensures ms == ns && x == y
    decreases ms
  {
    MembersMark(ms, x, r);
    MembersMark(ns, y, r);
    if ms != [] {
      var rest, rest' := MembersXml(ms[1..], r), MembersXml(ns[1..], r);
      MembersHead(ms, r);
      MembersHead(ns, r);
      AppendAssoc2(MemberXml(ms[0], r), rest, x);
      AppendAssoc2(MemberXml(ns[0], r), rest', y);
      MemberPrefixUnique(ms[0], ns[0], rest + x, rest' + y, r);
      MembersPrefixUnique(ms[1..], ns[1..], x, y, r);
      assert ms == [ms[0]] + ms[1..] && ns == [ns[0]] + ns[1..];
    } else {
      assert MembersXml(ms, r) + x == x && MembersXml(ns, r) + y == y;
    }
  }

  /** One member block is read back as the same member. */
  lemma {:induction false} MemberPrefixUnique(m: Member, n: Member, x: string, y: string, r: Renderers)
    requires Faithful(r)
    requires MemberXml(m, r) + x == MemberXml(n, r) + y
    ensures m == n && x == y
    decreases m
  {
    var open, nameClose, close := Line("<member>") + "<name>", Line("</name>"), Line("</member>");
    var tail, tail' := Serialized(m.value, r) + close + x, Serialized(n.value, r) + close + y;
    MemberText(m, x, r);
    MemberText(n, y, r);
    StripPrefix(open, Escape(m.name) + (nameClose + tail), Escape(n.name) + (nameClose + tail'));
    EscapeHasNoRawLt(m.name);
    EscapeHasNoRawLt(n.name);
    SplitAtLt(Escape(m.name), Escape(n.name), nameClose + tail, nameClose + tail');
    UnescapeEscape(m.name);
    UnescapeEscape(n.name);
    StripPrefix(nameClose, tail, tail');
    AppendAssoc2(Serialized(m.value, r), close, x);
    AppendAssoc2(Serialized(n.value, r), close, y);
    SerializedPrefixUnique(m.value, n.value, close + x, close + y, r);
    StripPrefix(close, x, y);
  }

  /** Array element fragments followed by a closing tag are read back as the same elements. */
  lemma {:induction false} ElementsPrefixUnique(vs: seq<Value>, ws: seq<Value>, x: string, y: string, r: Renderers)
    requires Faithful(r)
    requires ClosingTag(x) && ClosingTag(y)
    requires ElementsXml(vs, r) + x == ElementsXml(ws, r) + y
    ensures vs == ws && x == y
    decreases vs
  {
    ElementsMark(vs, x, r);
    ElementsMark(ws, y, r);
    if vs != [] {
      var rest, rest' := ElementsXml(vs[1..], r), ElementsXml(ws[1..], r);
      ElementsHead(vs, r);
      ElementsHead(ws, r);
      AppendAssoc2(Serialized(vs[0], r), rest, x);
      AppendAssoc2(Serialized(ws[0], r), rest', y);
      SerializedPrefixUnique(vs[0], ws[0], rest + x, rest' + y, r);
      ElementsPrefixUnique(vs[1..], ws[1..], x, y, r);
      assert vs == [vs[0]] + vs[1..] && ws == [ws[0]] + ws[1..];
    } else {
      assert ElementsXml(vs, r) + x == x && ElementsXml(ws, r) + y == y;
    }
  }

  // ---- Reading a scalar payload ----

  /**
   A one-line element `open + payload + close` whose payload holds no `<`
   and whose closing tag starts with `<` is read back as the same payload.
   */
  lemma PayloadPrefixUnique(open: string, p: string, q: string, close: string, x: string, y: string)
    requires '<' !in p && '<' !in q && close != [] && close[0] == '<'
    requires Line(open + p + close) + x == Line(open + q + close) + y
    ensures p == q && x == y
  {
    var c := close + "\n";
    assert Line(open + p + close) + x == open + (p + (c + x));
    assert Line(open + q + close) + y == open + (q + (c + y));
    StripPrefix(open, p + (c + x), q + (c + y));
    SplitAtLt(p, q, c + x, c + y);
    StripPrefix(c, x, y);
  }

  // ---- Telling variants apart ----

  /** The constructor of a value. */
  function Variant(v: Value): (k: nat)
    ensures k < 8
  {
    match v
    case Int(_) => 0
    case Bool(_) => 1
    case String(_) => 2
    case Double(_) => 3
    case DateTime(_) => 4
    case Base64(_) => 5
    case Struct(_) => 6
    case Array(_) => 7
  }

  /** The first letter of the opening tag of a value's content. */
  function TagLetter(v: Value): char
  {
    match v
    case Int(_) => 'i'
    case Bool(_) => 'b'
    case String(_) => 's'
    case Double(_) => 'd'
    case DateTime(_) => 'd'
    case Base64(_) => 'b'
    case Struct(_) => 's'
    case Array(_) => 'a'
  }

  /** The second letter of the opening tag of a value's content. */
  function TagSecond(v: Value): char
  {
    match v
    case Int(_) => '4'
    case Bool(_) => 'o'
    case String(_) => 't'
    case Double(_) => 'o'
    case DateTime(_) => 'a'
    case Base64(_) => 'a'
    case Struct(_) => 't'
    case Array(_) => 'r'
  }

  /** The second, third and fifth characters of the text between `<value>` and `</value>`. */
  lemma ContentMarks(v: Value, r: Renderers)
    ensures |Content(v, r)| > 4
    ensures Content(v, r)[1] == TagLetter(v) && Content(v, r)[2] == TagSecond(v)
    ensures v.String? ==> Content(v, r)[4] == 'i'
    ensures v.Struct? ==> Content(v, r)[4] == 'u'
  {
  }

  /** Two texts that agree on a value's content agree on its constructor. */
  lemma SameVariant(v: Value, w: Value, x: string, y: string, r: Renderers)
    requires Content(v, r) + x == Content(w, r) + y
    ensures Variant(v) == Variant(w)
  {
    ContentMarks(v, r);
    ContentMarks(w, r);
    var t := Content(v, r) + x;
    assert t[1] == Content(v, r)[1] && t[1] == Content(w, r)[1];
    assert t[2] == Content(v, r)[2] && t[2] == Content(w, r)[2];
    assert t[4] == Content(v, r)[4] && t[4] == Content(w, r)[4];
  }

  // ---- Where a list of blocks ends ----

  /** Text that starts with a closing tag, `</`. */
  predicate ClosingTag(x: string)
  {
    |x| >= 2 && x[0] == '<' && x[1] == '/'
  }

  /** A list of member blocks is empty exactly when the text after it starts at once with a closing tag. */
  lemma MembersMark(ms: seq<Member>, x: string, r: Renderers)
    requires ClosingTag(x)
    ensures |MembersXml(ms, r) + x| >= 2
    ensures ms == [] <==> (MembersXml(ms, r) + x)[1] == '/'
  {
    if ms != [] {
      var m := ms[0];
      MembersHead(ms, r);
      var open := Line("<member>");
      var rest := Line("<name>" + Escape(m.name) + "</name>") + Serialized(m.value, r) + Line("</member>");
      AppendAssoc3(open, Line("<name>" + Escape(m.name) + "</name>"), Serialized(m.value, r), Line("</member>"));
      assert MemberXml(m, r) == open + rest;
      assert (MemberXml(m, r) + MembersXml(ms[1..], r) + x)[1] == open[1];
    }
  }

  /** A list of element fragments is empty exactly when the text after it starts at once with a closing tag. */
  lemma ElementsMark(vs: seq<Value>, x: string, r: Renderers)
    requires ClosingTag(x)
    ensures |ElementsXml(vs, r) + x| >= 2
    ensures vs == [] <==> (ElementsXml(vs, r) + x)[1] == '/'
  {
    if vs != [] {
      ElementsHead(vs, r);
      var open := Line("<value>");
      assert Serialized(vs[0], r) == open + Content(vs[0], r) + Line("</value>");
      assert (Serialized(vs[0], r) + ElementsXml(vs[1..], r) + x)[1] == open[1];
    }
  }

  /** The first member block comes first. */
  lemma MembersHead(ms: seq<Member>, r: Renderers)
    requires ms != []
    ensures MembersXml(ms, r) == MemberXml(ms[0], r) + MembersXml(ms[1..], r)
  {
    var head := [ms[0]];
    assert MembersXml(head, r) == MemberXml(ms[0], r) by {
      assert head[..0] == [];
    }
    MembersXmlAppend(head, ms[1..], r);
    assert head + ms[1..] == ms;
  }

  /** The first element's fragment comes first. */
  lemma ElementsHead(vs: seq<Value>, r: Renderers)
    requires vs != []
    ensures ElementsXml(vs, r) == Serialized(vs[0], r) + ElementsXml(vs[1..], r)
  {
    var head := [vs[0]];
    assert ElementsXml(head, r) == Serialized(vs[0], r) by {
      assert head[..0] == [];
    }
    ElementsXmlAppend(head, vs[1..], r);
    assert head + vs[1..] == vs;
  }

  /** A member block followed by `x`, cut where the name ends. */
  lemma MemberText(m: Member, x: string, r: Renderers)
    ensures MemberXml(m, r) + x
         == Line("<member>") + "<name>" + (Escape(m.name) + (Line("</name>") + (Serialized(m.value, r) + Line("</member>") + x)))
  {
    var o, n, e, c, s, t := Line("<member>"), "<name>", Escape(m.name), "</name>", Serialized(m.value, r), Line("</member>");
    calc {
      MemberXml(m, r) + x;
      o + Line(n + e + c) + s + t + x;
      { assert Line(n + e + c) == n + (e + Line(c)); }
      o + (n + (e + Line(c))) + s + t + x;
      { MemberRegroup(o, n, e, Line(c), s, t, x); }
      o + n + (e + (Line(c) + (s + t + x)));
    }
  }

  /** The content of an array, as its opening lines, its elements and its closing lines. */
  lemma ArrayContent(vs: seq<Value>, r: Renderers)
    ensures Content(Array(vs), r)
         == Line("<array>") + Line("<data>") + ElementsXml(vs, r) + (Line("</data>") + Line("</array>"))
  {
  }

  // ---- Sequences ----

  /** A decimal number holds no `<`. */
  lemma DecimalHasNoLt(n: int)
    ensures '<' !in Decimal(n)
  {
    var d := Decimal(n);
    forall i | 0 <= i < |d| ensures d[i] != '<' {
      if n < 0 && i > 0 {
        assert d[i] == Digits(-n)[i - 1];
      }
    }
  }

  /** The position of the first `<`, or the length when there is none. */
  function LtIndex(s: string): (i: nat)
    ensures i <= |s|
    ensures forall k :: 0 <= k < i ==> s[k] != '<'
    ensures i < |s| ==> s[i] == '<'
  {
    if s == [] || s[0] == '<' then 0 else 1 + LtIndex(s[1..])
  }

  /** In `a + x`, with no `<` in `a` and `x` starting with `<`, the first `<` is where `x` starts. */
  lemma LtIndexAfter(a: string, x: string)
    requires '<' !in a && x != [] && x[0] == '<'
    ensures LtIndex(a + x) == |a|
  {
    assert (a + x)[|a|] == '<';
    assert forall k :: 0 <= k < |a| ==> (a + x)[k] == a[k];
  }

  /** Two texts free of `<`, each followed by text starting with `<`, split at the same place. */
  lemma SplitAtLt(a: string, b: string, x: string, y: string)
    requires '<' !in a && '<' !in b
    requires x != [] && x[0] == '<' && y != [] && y[0] == '<'
    requires a + x == b + y
    ensures a == b && x == y
  {
    LtIndexAfter(a, x);
    LtIndexAfter(b, y);
    assert a == (a + x)[..|a|];
    assert b == (b + y)[..|b|];
    StripPrefix(a, x, y);
  }

  lemma StripPrefix(a: string, x: string, y: string)
    requires a + x == a + y
    ensures x == y
  {
    assert x == (a + x)[|a|..];
    assert y == (a + y)[|a|..];
  }

  // ---- Sequence regrouping ----
  // A regrouping of `+` used by `MemberText`; a proof step, not a property.

  lemma MemberRegroup(o: string, n: string, e: string, c: string, s: string, t: string, x: string)
    ensures o + (n + (e + c)) + s + t + x == o + n + (e + (c + (s + t + x)))
  {
  }
}
