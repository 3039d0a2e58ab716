/** Decimal digit strings: Python's `int(digits)` and `str(n)` for non-negative numbers. */
module Decimal {
  import opened Wrappers

  predicate IsDigit(c: char) { '0' <= c <= '9' }

  predicate AllDigits(s: string) { forall i :: 0 <= i < |s| ==> IsDigit(s[i]) }

  /** The strings `_re_number` = `0|[123456789][0123456789]*` accepts. */
  predicate Canonical(s: string) {
    |s| > 0 && AllDigits(s) && (s[0] == '0' ==> |s| == 1)
  }

  function DigitValue(c: char): (d: nat)
    requires IsDigit(c)
    ensures d < 10
  {
    (c as int) - ('0' as int)
  }

  function DigitChar(d: nat): (c: char)
    requires d < 10
    ensures IsDigit(c) && DigitValue(c) == d
  {
    (('0' as int) + d) as char
  }

  /** `int(s)` for a string of digits. */
  function Value(s: string): nat
    requires AllDigits(s)
  {
    if |s| == 0 then 0 else Value(s[..|s| - 1]) * 10 + DigitValue(s[|s| - 1])
  }

  /** `str(n)` for a non-negative number. */
  function NatToStr(n: nat): string
  {
    if n < 10 then [DigitChar(n)] else NatToStr(n / 10) + [DigitChar(n % 10)]
  }

  /** Rendering always yields a string the number grammar accepts. */
  lemma {:induction false} NatToStrCanonical(n: nat)
    ensures Canonical(NatToStr(n))
    ensures NatToStr(n)[0] == '0' <==> n == 0
  {
    if n >= 10 {
      NatToStrCanonical(n / 10);
      var s := NatToStr(n / 10);
      assert NatToStr(n) == s + [DigitChar(n % 10)];
      assert NatToStr(n)[0] == s[0];
    }
  }

  /** `int(str(n)) == n`. */
  lemma {:induction false} ValueOfNatToStr(n: nat)
    ensures AllDigits(NatToStr(n)) && Value(NatToStr(n)) == n
  {
    NatToStrCanonical(n);
    if n >= 10 {
      ValueOfNatToStr(n / 10);
      var s := NatToStr(n);
      assert s[..|s| - 1] == NatToStr(n / 10);
    }
  }

  /** A digit string without a leading zero has a positive value. */
  lemma {:induction false} ValuePositive(s: string)
    requires |s| > 0 && AllDigits(s) && s[0] != '0'
    ensures Value(s) >= 1
  {
    if |s| > 1 {
      ValuePositive(s[..|s| - 1]);
    }
  }

  /** `str(int(s)) == s` for every canonical number string. */
  lemma {:induction false} NatToStrOfValue(s: string)
    requires Canonical(s)
    ensures NatToStr(Value(s)) == s
  {
    if |s| > 1 {
      var p := s[..|s| - 1];
      assert Canonical(p);
      ValuePositive(p);
      NatToStrOfValue(p);
      var n := Value(s);
      assert n / 10 == Value(p) && n % 10 == DigitValue(s[|s| - 1]);
      assert s == p + [s[|s| - 1]];
    } else if s[0] != '0' {
      assert Value(s) == DigitValue(s[0]);
      assert s == [s[0]];
    }
  }

  /** Length of the run of digits at the front of `s`. */
  function DigitRun(s: string): (k: nat)
    ensures k <= |s| && AllDigits(s[..k])
    ensures k < |s| ==> !IsDigit(s[k])
  {
    if |s| > 0 && IsDigit(s[0]) then
      var k := 1 + DigitRun(s[1..]);
      assert s[..k] == [s[0]] + s[1..][..k - 1];
      k
    else 0
  }

  /**
   * The number at the front of `s` as the version grammar reads it: a `0`
   * alone, or a maximal run of digits that starts with 1-9. Returns the
   * value and the rest of the string.
   */
  function ParseNumber(s: string): (r: Option<(nat, string)>)
    ensures r.Some? <==> |s| > 0 && IsDigit(s[0])
    ensures r.Some? ==> |r.value.1| < |s|
  {
    if |s| == 0 || !IsDigit(s[0]) then None
    else
      var k := if s[0] == '0' then 1 else DigitRun(s);
      Some((Value(s[..k]), s[k..]))
  }

  /** Reading back a rendered number: `ParseNumber(str(n) + rest)` gives `n` and `rest`. */
  lemma ParseNumberOfNatToStr(n: nat, rest: string)
    requires |rest| > 0 ==> !IsDigit(rest[0])
    ensures ParseNumber(NatToStr(n) + rest) == Some((n, rest))
  {
    var d := NatToStr(n);
    var s := d + rest;
    NatToStrCanonical(n);
    ValueOfNatToStr(n);
    if s[0] == '0' {
      assert s[..1] == d;
    } else {
      DigitRunOfPrefix(d, rest);
      assert s[..|d|] == d;
    }
    assert s[|d|..] == rest;
  }

  lemma {:induction false} DigitRunOfPrefix(d: string, rest: string)
    requires AllDigits(d)
    requires |rest| > 0 ==> !IsDigit(rest[0])
    ensures DigitRun(d + rest) == |d|
  {
    if |d| > 0 {
      assert (d + rest)[1..] == d[1..] + rest;
      DigitRunOfPrefix(d[1..], rest);
    }
  }

  /** What `ParseNumber` consumed is exactly the rendering of the number it returns. */
  lemma ParseNumberSplits(s: string)
    requires ParseNumber(s).Some?
    ensures var (n, rest) := ParseNumber(s).value; s == NatToStr(n) + rest
  {
    var k := if s[0] == '0' then 1 else DigitRun(s);
    assert Canonical(s[..k]);
    NatToStrOfValue(s[..k]);
    assert s == s[..k] + s[k..];
  }
}
