/**
 The duration text box: whatever is typed is stripped of non-digits, read as a
 decimal number of minutes (nothing left reads as 0) and capped at one hour.
 */
module TextInput {
  import opened Decimal
  import Wheel

  /** `text.replace(/\D/g, '')`: the digits of `text`, in order. */
  function KeepDigits(text: string): (digits: string)
    ensures AllDigits(digits)
    ensures |digits| <= |text|
    ensures forall c :: c in digits <==> c in text && IsDigit(c)
  {
    if |text| == 0 then []
    else if IsDigit(text[0]) then [text[0]] + KeepDigits(text[1..])
    else KeepDigits(text[1..])
  }

  /** The duration in minutes a text edit asks for. */
  function Sanitise(text: string): (minutes: nat)
    ensures minutes <= Wheel.MaxMinutes
    ensures KeepDigits(text) == [] ==> minutes == 0
    ensures minutes < Wheel.MaxMinutes ==> minutes == Value(KeepDigits(text))
    ensures minutes == Wheel.MaxMinutes <==> Value(KeepDigits(text)) >= Wheel.MaxMinutes
  {
    var n := Value(KeepDigits(text));
    if n < Wheel.MaxMinutes then n else Wheel.MaxMinutes
  }

  /** Filtering distributes over concatenation. */
  lemma {:induction false} KeepDigitsAppend(a: string, b: string)
    ensures KeepDigits(a + b) == KeepDigits(a) + KeepDigits(b)
    decreases |a|
  {
    if |a| > 0 {
      assert (a + b)[1..] == a[1..] + b;
      KeepDigitsAppend(a[1..], b);
    } else {
      assert a + b == b;
    }
  }

  /** A string of digits passes the filter untouched, and nothing else does. */
  lemma {:induction false} KeepDigitsFixesExactlyDigits(s: string)
    ensures KeepDigits(s) == s <==> AllDigits(s)
    decreases |s|
  {
    if |s| > 0 {
      KeepDigitsFixesExactlyDigits(s[1..]);
      if !IsDigit(s[0]) {
        assert |KeepDigits(s)| < |s|;
      }
    }
  }

  /** Inserting a non-digit character anywhere does not change the duration read. */
  lemma NonDigitIgnored(before: string, c: char, after: string)
    requires !IsDigit(c)
    ensures Sanitise(before + [c] + after) == Sanitise(before + after)
  {
    assert [c][1..] == [];
    assert KeepDigits([c]) == [];
    KeepDigitsAppend(before, [c]);
    assert KeepDigits(before + [c]) == KeepDigits(before);
    KeepDigitsAppend(before + [c], after);
    KeepDigitsAppend(before, after);
    var with, without := before + [c] + after, before + after;
    assert KeepDigits(with) == KeepDigits(without);
  }

  /**
   The box shows `String(duration)`; reading that text back gives the
   duration for anything on the dial, and the cap for anything beyond it.
   */
  lemma ShownValueReadsBack(minutes: nat)
    ensures minutes <= Wheel.MaxMinutes ==> Sanitise(FromNat(minutes)) == minutes
    ensures minutes >= Wheel.MaxMinutes ==> Sanitise(FromNat(minutes)) == Wheel.MaxMinutes
  {
    KeepDigitsFixesExactlyDigits(FromNat(minutes));
    ValueOfFromNat(minutes);
  }
}
