/** Decimal rendering of integers as the invariant culture writes it (a
    leading '-' for negative values) and
    `string.Join(", ", ...)` over integers, with a parser that inverts the
    rendering. */
module Text {

  predicate IsDigit(c: char) {
    '0' <= c <= '9'
  }

  function DigitChar(d: nat): (c: char)
    requires d < 10
    ensures IsDigit(c) && c as int - '0' as int == d
  {
    ('0' as int + d) as char
  }

  /** Decimal digits of `n`, most significant first, with no leading zero. */
  function NatToString(n: nat): (s: string)
    ensures |s| >= 1
    ensures forall k :: 0 <= k < |s| ==> IsDigit(s[k])
    ensures |s| > 1 ==> s[0] != '0'
  {
    if n < 10 then [DigitChar(n)] else NatToString(n / 10) + [DigitChar(n % 10)]
  }

  /** An integer in invariant-culture decimal: a leading '-' for negative
      values. */
  function IntToString(n: int): string {
    if n < 0 then "-" + NatToString(-n) else NatToString(n)
  }

  /** The value of a string of decimal digits. */
  function ParseNat(s: string): nat
    requires forall k :: 0 <= k < |s| ==> IsDigit(s[k])
  {
    if s == [] then 0
    else
      assert IsDigit(s[|s| - 1]);
      ParseNat(s[..|s| - 1]) * 10 + (s[|s| - 1] as int - '0' as int)
  }

  /** An optionally '-'-signed, non-empty run of decimal digits. */
  predicate IsNumeral(s: string) {
    && s != []
    && (s[0] == '-' || IsDigit(s[0]))
    && forall k :: 0 < k < |s| ==> IsDigit(s[k])
  }

  /** The value of an optionally '-'-signed decimal numeral. */
  function ParseInt(s: string): int
    requires IsNumeral(s)
  {
    if s[0] == '-' then -(ParseNat(s[1..]) as int) else ParseNat(s)
  }

  lemma {:induction false} ParseNatToString(n: nat)
    ensures ParseNat(NatToString(n)) == n
  {
    if n >= 10 {
      var s := NatToString(n);
      assert s[..|s| - 1] == NatToString(n / 10);
      ParseNatToString(n / 10);
    }
  }

  /** Rendering an integer and parsing it back gives the integer: the
      rendering loses nothing, so distinct integers render differently. */
  lemma IntToStringRoundTrip(n: int)
    ensures IsNumeral(IntToString(n))
    ensures ParseInt(IntToString(n)) == n
  {
    var s := IntToString(n);
    if n < 0 {
      var t := NatToString(-n);
      assert s[1..] == t;
      assert forall k :: 0 < k < |s| ==> s[k] == t[k - 1];
      ParseNatToString(-n);
    } else {
      ParseNatToString(n);
    }
  }

  lemma IntToStringInjective(a: int, b: int)
    requires IntToString(a) == IntToString(b)
    ensures a == b
  {
    IntToStringRoundTrip(a);
    IntToStringRoundTrip(b);
  }

  /** A rendered integer holds only a sign and digits, so never ',' or ' '. */
  lemma IntToStringNoSeparator(n: int)
    ensures forall k :: 0 <= k < |IntToString(n)| ==> IntToString(n)[k] != ',' && IntToString(n)[k] != ' '
  {
    if n < 0 {
      var s := IntToString(n);
      assert forall k :: 1 <= k < |s| ==> s[k] == NatToString(-n)[k - 1];
    }
  }

  /** `string.Join(", ", xs)` over the decimal renderings of `xs`. */
  function JoinInts(xs: seq<int>): string {
    if xs == [] then ""
    else if |xs| == 1 then IntToString(xs[0])
    else IntToString(xs[0]) + ", " + JoinInts(xs[1..])
  }

  /** Appending a value extends the joined text by one separator and the
      value's rendering, so the text lists the values in order. */
  lemma {:induction false} JoinIntsAppend(xs: seq<int>, x: int)
    requires xs != []
    ensures JoinInts(xs + [x]) == JoinInts(xs) + ", " + IntToString(x)
  {
    var ys := xs + [x];
    assert ys[0] == xs[0];
    if |xs| == 1 {
      assert ys[1..] == [x];
    } else {
      assert ys[1..] == xs[1..] + [x];
      JoinIntsAppend(xs[1..], x);
      assert JoinInts(ys) == IntToString(xs[0]) + ", " + JoinInts(xs[1..] + [x]);
      assert JoinInts(xs) == IntToString(xs[0]) + ", " + JoinInts(xs[1..]);
    }
  }
}
