/** Python's `int(text)` for a `str` argument in base 10: surrounding whitespace is ignored,
    an optional sign is accepted, and the digits may be grouped by single underscores;
    anything else raises `ValueError`, modelled as `None`, and so does text with more
    digits than the default conversion limit (`sys.int_max_str_digits`, 4300). */
module Numerals {
  import opened Wrappers

  /** The whitespace `int` skips around its digits: space, tab, line feed, vertical tab,
      form feed and carriage return. */
  predicate IsSpace(c: char)
  {
    c == ' ' || c == '\t' || c == '\n' || c == '\r' || c == '\U{0B}' || c == '\U{0C}'
  }

  predicate IsDigit(c: char)
  {
    '0' <= c <= '9'
  }

  function DigitValue(c: char): (d: nat)
    requires IsDigit(c)
    ensures d < 10
  {
    (c as int) - ('0' as int)
  }

  function DigitChar(d: nat): (c: char)
    requires d < 10
    ensures IsDigit(c) && DigitValue(c) == d
  {
    (('0' as int) + d) as char
  }

  /** The text without its leading whitespace. */
  function TrimStart(s: string): (r: string)
    ensures |r| <= |s| && r == s[|s| - |r|..]
    ensures forall k :: 0 <= k < |s| - |r| ==> IsSpace(s[k])
    ensures |r| > 0 ==> !IsSpace(r[0])
  {
    if |s| > 0 && IsSpace(s[0]) then
      var r := TrimStart(s[1..]);
      assert forall k :: 1 <= k < |s| ==> s[k] == s[1..][k - 1];
      r
    else s
  }

  /** The text without its trailing whitespace. */
  function TrimEnd(s: string): (r: string)
    ensures |r| <= |s| && r == s[..|r|]
    ensures forall k :: |r| <= k < |s| ==> IsSpace(s[k])
    ensures |r| > 0 ==> !IsSpace(r[|r| - 1])
  {
    if |s| > 0 && IsSpace(s[|s| - 1]) then TrimEnd(s[..|s| - 1]) else s
  }

  function Strip(s: string): string
  {
    TrimEnd(TrimStart(s))
  }

  /** Digits, with single underscores allowed between two digits. */
  predicate WellGrouped(t: string)
  {
    && |t| > 0 && IsDigit(t[0]) && IsDigit(t[|t| - 1])
    && (forall k :: 0 <= k < |t| ==> IsDigit(t[k]) || t[k] == '_')
    && (forall k :: 0 <= k < |t| - 1 ==> t[k] == '_' ==> t[k + 1] != '_')
  }

  predicate AllDigits(d: string)
  {
    forall k :: 0 <= k < |d| ==> IsDigit(d[k])
  }

  /** The text with its underscores dropped: the digits of a well-grouped numeral. */
  function DropUnderscores(t: string): (d: string)
    ensures (forall k :: 0 <= k < |t| ==> IsDigit(t[k]) || t[k] == '_') ==> AllDigits(d)
    ensures AllDigits(t) ==> d == t
  {
    if |t| == 0 then []
    else (if t[0] == '_' then [] else [t[0]]) + DropUnderscores(t[1..])
  }

  /** The value of a numeral read most significant digit first. */
  function DigitsValue(d: string): nat
    requires AllDigits(d)
  {
    if |d| == 0 then 0 else DigitsValue(d[..|d| - 1]) * 10 + DigitValue(d[|d| - 1])
  }

  /** The default of `sys.int_max_str_digits`: `int` and `str` refuse numbers with more
      decimal digits than this. */
  const MaxStrDigits: nat := 4300

  function ParseDigits(t: string): Option<nat>
  {
    if WellGrouped(t) && |DropUnderscores(t)| <= MaxStrDigits then
      Some(DigitsValue(DropUnderscores(t)))
    else
      None
  }

  /** `int(s)`: `None` where Python raises `ValueError`. */
  function ParseInt(s: string): Option<int>
  {
    var t := Strip(s);
    if |t| > 0 && (t[0] == '+' || t[0] == '-') then
      match ParseDigits(t[1..])
      case None => None
      case Some(n) => Some(if t[0] == '-' then -(n as int) else n as int)
    else
      match ParseDigits(t)
      case None => None
      case Some(n) => Some(n)
  }

  /** `str(n)` for a non-negative integer. */
  function NatToDecimal(n: nat): (r: string)
    ensures |r| > 0 && AllDigits(r)
  {
    (if n < 10 then [] else NatToDecimal(n / 10)) + [DigitChar(n % 10)]
  }

  /** `str(n)`, for the numbers `str` converts: those of at most `MaxStrDigits` digits. */
  function IntToDecimal(n: int): string
  {
    if n < 0 then "-" + NatToDecimal(-n) else NatToDecimal(n)
  }

  lemma {:induction false} DecimalValue(n: nat)
    ensures DigitsValue(NatToDecimal(n)) == n
  {
    var r := NatToDecimal(n);
    var prefix: string := if n < 10 then [] else NatToDecimal(n / 10);
    var last := DigitChar(n % 10);
    assert r == prefix + [last];
    assert r[..|r| - 1] == prefix;
    assert r[|r| - 1] == last;
    assert DigitsValue(r) == DigitsValue(prefix) * 10 + DigitValue(last);
    if n >= 10 {
      DecimalValue(n / 10);
    }
    assert DigitsValue(prefix) == n / 10;
    assert DigitValue(last) == n % 10;
    assert (n / 10) * 10 + n % 10 == n;
  }

  lemma ParseDecimal(n: nat)
    requires |NatToDecimal(n)| <= MaxStrDigits
    ensures ParseDigits(NatToDecimal(n)) == Some(n)
  {
    var d := NatToDecimal(n);
    assert WellGrouped(d);
    assert DropUnderscores(d) == d;
    DecimalValue(n);
  }

  /** `int(str(n)) == n` for every integer `str` can convert, that is, one of at most
      `MaxStrDigits` digits. */
  lemma ParseIntRoundTrip(n: int)
    requires |NatToDecimal(if n < 0 then -n else n)| <= MaxStrDigits
    ensures ParseInt(IntToDecimal(n)) == Some(n)
  {
    if n < 0 {
      var m: nat := -n;
      assert IntToDecimal(n) == "-" + NatToDecimal(m);
      ParseNegative(m);
    } else {
      assert IntToDecimal(n) == NatToDecimal(n);
      ParseNonNegative(n);
    }
  }

  lemma ParseNonNegative(n: nat)
    requires |NatToDecimal(n)| <= MaxStrDigits
    ensures ParseInt(NatToDecimal(n)) == Some(n)
  {
    var d := NatToDecimal(n);
    assert IsDigit(d[0]) && IsDigit(d[|d| - 1]);
    ParseUnsigned(d);
    ParseDecimal(n);
  }

  lemma ParseNegative(m: nat)
    requires m > 0 && |NatToDecimal(m)| <= MaxStrDigits
    ensures ParseInt("-" + NatToDecimal(m)) == Some(-(m as int))
  {
    var d := NatToDecimal(m);
    var s := "-" + d;
    assert s[|s| - 1] == d[|d| - 1];
    StripUnpadded(s);
    assert Strip(s) == s;
    assert s[1..] == d;
    ParseDecimal(m);
  }

  /** Decimal text longer than the digit limit is refused, however small its value:
      leading zeros count as digits. */
  lemma TooManyDigitsRejected(d: string)
    requires |d| > MaxStrDigits && AllDigits(d)
    ensures ParseInt(d) == None
  {
    assert IsDigit(d[0]) && IsDigit(d[|d| - 1]);
    ParseUnsigned(d);
    assert WellGrouped(d);
    assert DropUnderscores(d) == d;
  }

  lemma StripUnpadded(s: string)
    requires |s| > 0 && !IsSpace(s[0]) && !IsSpace(s[|s| - 1])
    ensures Strip(s) == s
  {
  }

  /** Text in which no decimal digit occurs is never a valid `int` literal. */
  lemma NoDigitNotAnInt(s: string)
    requires forall k :: 0 <= k < |s| ==> !IsDigit(s[k])
    ensures ParseInt(s) == None
  {
    var u := TrimStart(s);
    var t := Strip(s);
    assert t == u[..|t|];
    assert forall k :: 0 <= k < |t| ==> t[k] == s[|s| - |u| + k];
    if |t| > 0 && (t[0] == '+' || t[0] == '-') {
      assert !WellGrouped(t[1..]) by {
        if |t| > 1 {
          assert t[1..][0] == t[1];
        }
      }
    } else {
      assert !WellGrouped(t);
    }
  }

  /** Underscores are dropped and every other character is kept, in order: the digits of
      `a + b` are those of `a` followed by those of `b`. */
  lemma {:induction false} DropUnderscoresAppend(a: string, b: string)
    ensures DropUnderscores(a + b) == DropUnderscores(a) + DropUnderscores(b)
    decreases |a|
  {
    if |a| == 0 {
      assert a + b == b;
    } else {
      assert (a + b)[0] == a[0] && (a + b)[1..] == a[1..] + b;
      DropUnderscoresAppend(a[1..], b);
    }
  }

  lemma DropUnderscore()
    ensures DropUnderscores("_") == []
  {
  }

  /** Unpadded text starting with a digit is read by the digit parser alone. */
  lemma ParseUnsigned(t: string)
    requires |t| > 0 && IsDigit(t[0]) && IsDigit(t[|t| - 1])
    ensures ParseInt(t) == match ParseDigits(t) case None => None case Some(n) => Some(n as int)
  {
    StripUnpadded(t);
  }

  /** The pieces either side of a grouping underscore hold only digits and underscores. */
  lemma GroupingPieces(a: string, b: string)
    requires WellGrouped(a + "_" + b)
    ensures |a| > 0 && |b| > 0
    ensures forall k :: 0 <= k < |a| ==> IsDigit(a[k]) || a[k] == '_'
    ensures forall k :: 0 <= k < |b| ==> IsDigit(b[k]) || b[k] == '_'
  {
    var s := a + "_" + b;
    assert s[|a|] == '_';
    forall k | 0 <= k < |a| ensures IsDigit(a[k]) || a[k] == '_' {
      assert a[k] == s[k];
    }
    forall k | 0 <= k < |b| ensures IsDigit(b[k]) || b[k] == '_' {
      assert b[k] == s[|a| + 1 + k];
    }
  }

  lemma GroupingShape(a: string, b: string)
    requires WellGrouped(a + "_" + b)
    ensures |a| > 0 && |b| > 0 && WellGrouped(a + b)
  {
    var s := a + "_" + b;
    GroupingPieces(a, b);
    assert a[|a| - 1] == s[|a| - 1] && b[0] == s[|a| + 1] && s[|a|] == '_';
    assert a[|a| - 1] != '_';
    var t := a + b;
    forall k | 0 <= k < |t| ensures IsDigit(t[k]) || t[k] == '_' {
      if k < |a| { assert t[k] == a[k]; } else { assert t[k] == b[k - |a|]; }
    }
    forall k | 0 <= k < |t| - 1 ensures t[k] == '_' ==> t[k + 1] != '_' {
      if k + 1 < |a| {
        assert t[k] == s[k] && t[k + 1] == s[k + 1];
      } else if k + 1 > |a| {
        assert t[k] == s[k + 1] && t[k + 1] == s[k + 2];
      } else {
        assert t[k] == a[|a| - 1];
      }
    }
    assert t[0] == s[0] && t[|t| - 1] == s[|s| - 1];
  }

  lemma {:induction false} DropUnderscoreInside(a: string, b: string)
    ensures DropUnderscores(a + "_" + b) == DropUnderscores(a + b)
    decreases |a|
  {
    if |a| == 0 {
      assert a + "_" + b == "_" + b && ("_" + b)[1..] == b && a + b == b;
    } else {
      assert (a + "_" + b)[0] == a[0] && (a + "_" + b)[1..] == a[1..] + "_" + b;
      assert (a + b)[0] == a[0] && (a + b)[1..] == a[1..] + b;
      DropUnderscoreInside(a[1..], b);
    }
  }

  /** A grouping underscore changes nothing: `int("1_000") == int("1000")`. */
  lemma GroupingIgnored(a: string, b: string)
    requires WellGrouped(a + "_" + b)
    ensures ParseInt(a + "_" + b) == ParseInt(a + b)
  {
    GroupingShape(a, b);
    GroupingPieces(a, b);
    DropUnderscoreInside(a, b);
    var s := a + "_" + b;
    var t := a + b;
    assert s[|s| - 1] == t[|t| - 1] && s[0] == t[0];
    ParseUnsigned(s);
    ParseUnsigned(t);
  }

  /** Whatever `int` accepts is, once stripped, a numeral with single grouping underscores,
      after an optional sign: no other character gets through. */
  lemma AcceptedShape(s: string)
    ensures ParseInt(s).Some? ==>
      var t := Strip(s);
      && |t| > 0 && IsDigit(t[|t| - 1])
      && (WellGrouped(t) || ((t[0] == '+' || t[0] == '-') && WellGrouped(t[1..])))
      && forall k :: 0 <= k < |t| ==> IsDigit(t[k]) || t[k] == '_' || (k == 0 && (t[0] == '+' || t[0] == '-'))
  {
    var t := Strip(s);
    if ParseInt(s).Some? && |t| > 0 && (t[0] == '+' || t[0] == '-') {
      assert WellGrouped(t[1..]);
      assert forall k :: 1 <= k < |t| ==> t[k] == t[1..][k - 1];
    }
  }

  /** So text holding any other character, such as `"12a"`, `"1.5"` or `"1 2"`, is refused. */
  lemma ForeignCharacterRejected(s: string, k: nat)
    requires k < |Strip(s)|
    requires var c := Strip(s)[k]; !IsDigit(c) && c != '_' && (k > 0 || (c != '+' && c != '-'))
    ensures ParseInt(s) == None
  {
    AcceptedShape(s);
  }

  /** The same for text without surrounding whitespace, where the character is found directly. */
  lemma UnpaddedForeignRejected(s: string, k: nat)
    requires |s| > 0 && !IsSpace(s[0]) && !IsSpace(s[|s| - 1])
    requires k < |s| && !IsDigit(s[k]) && s[k] != '_' && (k > 0 || (s[k] != '+' && s[k] != '-'))
    ensures ParseInt(s) == None
  {
    StripUnpadded(s);
    assert Strip(s)[k] == s[k];
    ForeignCharacterRejected(s, k);
  }

  lemma LetterRejected()
    ensures ParseInt("12a") == None
  {
    UnpaddedForeignRejected("12a", 2);
  }

  lemma PointRejected()
    ensures ParseInt("1.5") == None
  {
    UnpaddedForeignRejected("1.5", 1);
  }

  lemma InnerSpaceRejected()
    ensures ParseInt("1 2") == None
  {
    UnpaddedForeignRejected("1 2", 1);
  }
}
