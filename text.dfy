/**
 The two pieces of text rendering the serializer relies on for scalar
 content: `escape_xml`, applied to string values and struct member names,
 and Rust's `{}` rendering of an `i32` inside `<i4>`.

 `escape_xml` replaces `&` by `&amp;` and `<` by `&lt;` and leaves every
 other character, `>` included, as it is.  `Unescape` is its inverse, the
 reading an XML consumer applies to the two entities.
 */
module XmlText {

  import opened Wrappers

  /** The escaped form of one character. */
  function EscapeChar(c: char): string
  {
    if c == '&' then "&amp;" else if c == '<' then "&lt;" else [c]
  }

  /** `escape_xml`, one character at a time. */
  function Escape(s: string): string
  {
    if s == [] then [] else EscapeChar(s[0]) + Escape(s[1..])
  }

  /** Escaped text never holds a raw `<`, and is never shorter than the original. */
  lemma {:induction false} EscapeHasNoRawLt(s: string)
    ensures '<' !in Escape(s)
    ensures |Escape(s)| >= |s|
  {
    if s != [] {
      EscapeHasNoRawLt(s[1..]);
      assert '<' !in EscapeChar(s[0]);
    }
  }

  /** Replaces `&amp;` by `&` and `&lt;` by `<`; every other character is kept. */
  function Unescape(t: string): string
  {
    if t == [] then []
    else if |t| >= 5 && t[..5] == "&amp;" then ['&'] + Unescape(t[5..])
    else if |t| >= 4 && t[..4] == "&lt;" then ['<'] + Unescape(t[4..])
    else [t[0]] + Unescape(t[1..])
  }

  /** Escaping loses nothing: the escaped text reads back as the original. */
  lemma {:induction false} UnescapeEscape(s: string)
    ensures Unescape(Escape(s)) == s
  {
    if s != [] {
      var rest := Escape(s[1..]);
      var t := Escape(s);
      assert t == EscapeChar(s[0]) + rest;
      if s[0] == '&' {
        assert t[..5] == "&amp;" && t[5..] == rest;
      } else if s[0] == '<' {
        assert t[..4] == "&lt;" && t[4..] == rest;
        assert t[1] == 'l';
      } else {
        assert t[0] == s[0] && t[1..] == rest;
      }
      UnescapeEscape(s[1..]);
    }
  }

  /** Text without `&` and `<` is emitted unchanged. */
  lemma {:induction false} EscapeKeepsPlainText(s: string)
    requires '&' !in s && '<' !in s
    ensures Escape(s) == s
  {
    if s != [] {
      assert s[0] != '&' && s[0] != '<';
      EscapeKeepsPlainText(s[1..]);
      assert s == [s[0]] + s[1..];
    }
  }

  /** Escaping works character by character, so it distributes over concatenation. */
  lemma {:induction false} EscapeAppend(a: string, b: string)
    ensures Escape(a + b) == Escape(a) + Escape(b)
  {
    if a != [] {
      assert (a + b)[0] == a[0] && (a + b)[1..] == a[1..] + b;
      EscapeAppend(a[1..], b);
    } else {
      assert a + b == b;
    }
  }

  /**
   The escaping asserted by the `escapes_strings` test; the input
   `<xml>&nbsp;string` is written split around the characters that change.
   */
  lemma EscapeExample()
    ensures Escape("<" + "xml>" + "&" + "nbsp;string") == "&lt;" + "xml>" + "&amp;" + "nbsp;string"
  {
    var lt, tag, amp, text := "<", "xml>", "&", "nbsp;string";
    assert Escape(lt + tag) == "&lt;" + tag by {
      EscapeKeepsPlainText(tag);
      EscapeAppend(lt, tag);
    }
    assert Escape(lt + tag + amp) == "&lt;" + tag + "&amp;" by {
      EscapeAppend(lt + tag, amp);
    }
    EscapeKeepsPlainText(text);
    EscapeAppend(lt + tag + amp, text);
  }

  /** The escaping asserted by the `escapes_struct_member_names` test, split the same way. */
  lemma EscapeNameExample()
    ensures Escape("x" + "&" + "<" + "x") == "x" + "&amp;" + "&lt;" + "x"
  {
    EscapeAppend("x", "&");
    EscapeAppend("x" + "&", "<");
    EscapeAppend("x" + "&" + "<", "x");
  }

  // ---- Rust's `{}` rendering of an integer ----

  function DigitChar(d: nat): (c: char)
    requires d < 10
    ensures '0' <= c <= '9' && (c as int) - ('0' as int) == d
  {
    "0123456789"[d]
  }

  predicate IsDigit(c: char)
  {
    '0' <= c <= '9'
  }

  predicate AllDigits(s: string)
  {
    forall i :: 0 <= i < |s| ==> IsDigit(s[i])
  }

  function DigitValue(c: char): (d: nat)
    requires IsDigit(c)
    ensures d < 10
  {
    (c as int) - ('0' as int)
  }

  /** The decimal digits of `n`, most significant first, without leading zeros. */
  function Digits(n: nat): (r: string)
    ensures |r| >= 1
    ensures AllDigits(r)
    ensures r[0] == '0' ==> n == 0
  {
    if n < 10 then [DigitChar(n)] else Digits(n / 10) + [DigitChar(n % 10)]
  }

  /** `format!("{}", n)`: a `-` sign for negative numbers, then the digits of the magnitude. */
  function Decimal(n: int): (r: string)
    ensures |r| >= 1
    ensures n < 0 <==> r[0] == '-'
  {
    if n < 0 then "-" + Digits(-n) else Digits(n)
  }

  /** The number a string of decimal digits denotes. */
  function DigitsValue(s: string): nat
    requires AllDigits(s)
  {
    if s == [] then 0
    else DigitsValue(s[..|s| - 1]) * 10 + DigitValue(s[|s| - 1])
  }

  /** Reads back a decimal number written by `Decimal`; `None` for anything else. */
  function ParseDecimal(s: string): Option<int>
  {
    if |s| >= 2 && s[0] == '-' && AllDigits(s[1..]) then
      Some(-(DigitsValue(s[1..]) as int))
    else if |s| >= 1 && AllDigits(s) then
      Some(DigitsValue(s))
    else
      None
  }

  lemma {:induction false} DigitsValueOfDigits(n: nat)
    ensures DigitsValue(Digits(n)) == n
  {
    if n >= 10 {
      var d := Digits(n);
      assert d[..|d| - 1] == Digits(n / 10);
      DigitsValueOfDigits(n / 10);
    }
  }

  /** The rendering of an integer reads back as the same integer. */
  lemma ParseDecimalInverse(n: int)
    ensures ParseDecimal(Decimal(n)) == Some(n)
  {
    if n < 0 {
      ParseNegativeDecimal(-n);
    } else {
      ParseDigits(n);
    }
  }

  /** The digits of a natural number read back as that number. */
  lemma ParseDigits(m: nat)
    ensures ParseDecimal(Digits(m)) == Some(m as int)
  {
    var d := Digits(m);
    assert d[0] != '-';
    DigitsValueOfDigits(m);
  }

  /** A `-` followed by the digits of a positive magnitude reads back as the negated magnitude. */
  lemma ParseNegativeDecimal(m: nat)
    requires m > 0
    ensures ParseDecimal("-" + Digits(m)) == Some(-(m as int))
  {
    var digits := Digits(m);
    var d := "-" + digits;
    assert d[1..] == digits;
    DigitsValueOfDigits(m);
  }

  /** Distinct integers are rendered as distinct texts. */
  lemma DecimalInjective(m: int, n: int)
    requires Decimal(m) == Decimal(n)
    ensures m == n
  {
    ParseDecimalInverse(m);
    ParseDecimalInverse(n);
  }
}
