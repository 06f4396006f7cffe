/**
 Decimal digit strings as the timer widget uses them: JavaScript's `String(n)`
 for a non-negative integer, `Number(s)` for a string of ASCII digits, and
 `padStart(width, fill)`.
 */
module Decimal {

  /** The characters JavaScript's `\d` matches (no `u` flag): ASCII 0-9. */
  predicate IsDigit(c: char) {
    '0' <= c <= '9'
  }

  predicate AllDigits(s: string) {
    forall i :: 0 <= i < |s| ==> IsDigit(s[i])
  }

  /** A rendering without superfluous leading zeros, as `String(n)` produces. */
  predicate Canonical(s: string) {
    && 1 <= |s|
    && AllDigits(s)
    && (|s| > 1 ==> s[0] != '0')
  }

  function DigitValue(c: char): (d: nat)
    requires IsDigit(c)
    ensures d < 10
  {
    c as int - '0' as int
  }

  function DigitChar(d: nat): (c: char)
    requires d < 10
    ensures IsDigit(c) && DigitValue(c) == d
  {
    ('0' as int + d) as char
  }

  function Pow10(k: nat): (p: nat)
    ensures p >= 1
  {
    if k == 0 then 1 else 10 * Pow10(k - 1)
  }

  /**
   `Number(s)` for a digit string. The empty string reads as 0, and a string
   whose first digit is not zero reads as a positive number.
   */
  function Value(s: string): (n: nat)
    requires AllDigits(s)
    ensures |s| == 0 ==> n == 0
    ensures |s| > 0 && s[0] != '0' ==> n > 0
  {
    if |s| == 0 then 0
    else 10 * Value(s[..|s| - 1]) + DigitValue(s[|s| - 1])
  }

  /** `String(n)` for a non-negative integer. */
  function FromNat(n: nat): (s: string)
    ensures Canonical(s)
    ensures n < 10 <==> |s| == 1
  {
    if n < 10 then [DigitChar(n)]
    else FromNat(n / 10) + [DigitChar(n % 10)]
  }

  /** `k` copies of `c`. */
  function Repeat(c: char, k: nat): (r: string)
    ensures |r| == k
  {
    if k == 0 then [] else Repeat(c, k - 1) + [c]
  }

  /** `s.padStart(width, fill)` with a one-character fill string. */
  function PadStart(s: string, width: nat, fill: char): (r: string)
    ensures |r| == if |s| < width then width else |s|
    ensures r == Repeat(fill, |r| - |s|) + s
  {
    if |s| >= width then s else Repeat(fill, width - |s|) + s
  }

  /** A string of k digits reads as a number below 10^k. */
  lemma {:induction false} ValueBound(s: string)
    requires AllDigits(s)
    ensures Value(s) < Pow10(|s|)
    decreases |s|
  {
    if |s| > 0 {
      ValueBound(s[..|s| - 1]);
    }
  }

  /** Appending a digit shifts the value left by one decimal place. */
  lemma ValueSnoc(s: string, c: char)
    requires AllDigits(s) && IsDigit(c)
    ensures AllDigits(s + [c])
    ensures Value(s + [c]) == 10 * Value(s) + DigitValue(c)
  {
    assert (s + [c])[..|s|] == s;
  }

  lemma ShiftArith(va: int, p: int, vi: int, d: int)
    ensures 10 * (va * p + vi) + d == va * (10 * p) + (10 * vi + d)
  {
  }

  /** The value of a concatenation: the left part is scaled by the right part's width. */
  lemma {:induction false} ValueAppend(a: string, b: string)
    requires AllDigits(a) && AllDigits(b)
    ensures AllDigits(a + b)
    ensures Value(a + b) == Value(a) * Pow10(|b|) + Value(b)
    decreases |b|
  {
    if |b| == 0 {
      assert a + b == a;
    } else {
      var init, last := b[..|b| - 1], b[|b| - 1];
      assert b == init + [last];
      assert a + b == (a + init) + [last];
      ValueAppend(a, init);
      ValueSnoc(a + init, last);
      ValueSnoc(init, last);
      ShiftArith(Value(a), Pow10(|init|), Value(init), DigitValue(last));
      assert Pow10(|b|) == 10 * Pow10(|init|);
    }
  }

  /** A string of zeros has value 0. */
  lemma {:induction false} ValueOfZeros(k: nat)
    ensures AllDigits(Repeat('0', k))
    ensures Value(Repeat('0', k)) == 0
  {
    if k > 0 {
      ValueOfZeros(k - 1);
      ValueSnoc(Repeat('0', k - 1), '0');
    }
  }

  /** Padding on the left with zeros does not change the value read back. */
  lemma PadValue(s: string, width: nat)
    requires AllDigits(s)
    ensures AllDigits(PadStart(s, width, '0'))
    ensures Value(PadStart(s, width, '0')) == Value(s)
  {
    if |s| < width {
      ValueOfZeros(width - |s|);
      ValueAppend(Repeat('0', width - |s|), s);
    }
  }

  /** `Number(String(n)) == n`. */
  lemma {:induction false} ValueOfFromNat(n: nat)
    ensures Value(FromNat(n)) == n
  {
    if n >= 10 {
      ValueOfFromNat(n / 10);
      ValueSnoc(FromNat(n / 10), DigitChar(n % 10));
    }
  }

  /** `String(Number(s)) == s` for every canonical digit string. */
  lemma {:induction false} FromNatOfValue(s: string)
    requires Canonical(s)
    ensures FromNat(Value(s)) == s
    decreases |s|
  {
    var n := Value(s);
    if |s| == 1 {
      assert s[..0] == [];
      assert Value(s[..0]) == 0;
      assert n == 10 * Value(s[..0]) + DigitValue(s[0]);
    } else {
      var init := s[..|s| - 1];
      assert n / 10 == Value(init) && n % 10 == DigitValue(s[|s| - 1]);
      FromNatOfValue(init);
      assert DigitChar(n % 10) == s[|s| - 1];
      assert s == init + [s[|s| - 1]];
    }
  }

  /** Two digit strings of equal width with equal values are the same string. */
  lemma {:induction false} ValueInjective(a: string, b: string)
    requires AllDigits(a) && AllDigits(b) && |a| == |b|
    requires Value(a) == Value(b)
    ensures a == b
    decreases |a|
  {
    if |a| > 0 {
      var k := |a| - 1;
      assert DigitValue(a[k]) == Value(a) % 10 && DigitValue(b[k]) == Value(b) % 10;
      assert Value(a[..k]) == Value(a) / 10 && Value(b[..k]) == Value(b) / 10;
      ValueInjective(a[..k], b[..k]);
      assert a == a[..k] + [a[k]] && b == b[..k] + [b[k]];
    }
  }

  /** `String(n)` has at most two characters exactly when n is below 100. */
  lemma FromNatWidth(n: nat)
    ensures n < 100 <==> |FromNat(n)| <= 2
  {
    if n >= 100 {
      assert |FromNat(n / 10)| >= 2;
    }
  }
}
