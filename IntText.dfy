/** Decimal text of integers, as Python's `str(int)` (and so an f-string
    placeholder `{n}` holding an `int`) writes it: an optional minus sign,
    then the digits of the magnitude with no leading zero.
    `ParseInt` reads such text back; the two are proved inverse. */
module IntText {

  predicate IsDigit(c: char) {
    '0' <= c <= '9'
  }

  function DigitChar(d: int): (c: char)
    requires 0 <= d < 10
    ensures IsDigit(c) && DigitValue(c) == d
  {
    "0123456789"[d]
  }

  function DigitValue(c: char): int
    requires IsDigit(c)
  {
    (c as int) - ('0' as int)
  }

  /** Canonical decimal text of a natural number: digits only, and a leading
      zero only in the text "0" itself. */
  predicate IsNatText(s: string) {
    |s| >= 1 &&
    (forall i :: 0 <= i < |s| ==> IsDigit(s[i])) &&
    (s[0] == '0' ==> |s| == 1)
  }

  /** Canonical decimal text of an integer: that of a natural number, or a
      minus sign followed by that of a positive one (there is no "-0"). */
  predicate IsIntText(s: string) {
    IsNatText(s) || (|s| >= 2 && s[0] == '-' && IsNatText(s[1..]) && s[1] != '0')
  }

  function NatToString(n: nat): (s: string)
    ensures IsNatText(s)
    ensures s[0] == '0' <==> n == 0
    decreases n
  {
    if n < 10 then [DigitChar(n)] else NatToString(n / 10) + [DigitChar(n % 10)]
  }

  /** Python's `str(n)` for an `int` n. */
  function IntToString(n: int): (s: string)
    ensures IsIntText(s)
    ensures s[0] == '-' <==> n < 0
  {
    if n < 0 then "-" + NatToString(-n) else NatToString(n)
  }

  function ParseNat(s: string): nat
    requires |s| >= 1 && forall i :: 0 <= i < |s| ==> IsDigit(s[i])
    decreases |s|
  {
    var d := DigitValue(s[|s| - 1]);
    if |s| == 1 then d else 10 * ParseNat(s[..|s| - 1]) + d
  }

  function ParseInt(s: string): int
    requires IsIntText(s)
  {
    if s[0] == '-' then 0 - ParseNat(s[1..]) else ParseNat(s)
  }

  lemma {:induction false} NatRoundTrip(n: nat)
    ensures ParseNat(NatToString(n)) == n
    decreases n
  {
    if n >= 10 {
      var s := NatToString(n);
      assert s[..|s| - 1] == NatToString(n / 10);
      NatRoundTrip(n / 10);
    }
  }

  /** Reading back the text of any integer gives that integer. */
  lemma IntRoundTrip(n: int)
    ensures ParseInt(IntToString(n)) == n
  {
    var s := IntToString(n);
    if n < 0 {
      assert s == "-" + NatToString(-n);
      assert s[1..] == NatToString(-n);
      NatRoundTrip(-n);
    } else {
      assert s == NatToString(n);
      NatRoundTrip(n);
    }
  }

  /** Distinct integers have distinct texts. */
  lemma IntToStringInjective(a: int, b: int)
    ensures IntToString(a) == IntToString(b) ==> a == b
  {
    IntRoundTrip(a);
    IntRoundTrip(b);
  }

  /** Digits with a nonzero leading digit denote a positive number. */
  lemma {:induction false} ParseNatPositive(s: string)
    requires |s| >= 1 && forall i :: 0 <= i < |s| ==> IsDigit(s[i])
    requires s[0] != '0'
    ensures ParseNat(s) > 0
    decreases |s|
  {
    if |s| > 1 {
      ParseNatPositive(s[..|s| - 1]);
    }
  }

  lemma {:induction false} ParseNatRoundTrip(s: string)
    requires IsNatText(s)
    ensures NatToString(ParseNat(s)) == s
    decreases |s|
  {
    if |s| > 1 {
      var init := s[..|s| - 1];
      ParseNatPositive(init);
      ParseNatRoundTrip(init);
      var n := ParseNat(s);
      var d := DigitValue(s[|s| - 1]);
      assert n / 10 == ParseNat(init) && n % 10 == d;
      assert DigitChar(d) == s[|s| - 1];
      assert s == init + [s[|s| - 1]];
    }
  }

  /** Every canonical integer text is the text of the integer it denotes. */
  lemma ParseIntRoundTrip(s: string)
    requires IsIntText(s)
    ensures IntToString(ParseInt(s)) == s
  {
    if s[0] == '-' {
      ParseNatPositive(s[1..]);
      ParseNatRoundTrip(s[1..]);
      assert s == "-" + s[1..];
    } else {
      ParseNatRoundTrip(s);
    }
  }
}
