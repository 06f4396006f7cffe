/**
 The `MM:SS` clock text under the dial, and a reader for it. The reader
 accepts exactly the strings the formatter produces, so the two are inverse
 to each other.
 */
module TimeFormat {
  import opened Decimal

  datatype Option<T> = None | Some(value: T)

  const SecondsPerMinute: nat := 60

  /** `String(n).padStart(2, '0')`: at least two digits, no more than needed. */
  function Field(n: nat): (f: string)
    ensures MinutesField(f) && Value(f) == n
    ensures n < 100 <==> |f| == 2
  {
    ValueOfFromNat(n);
    PadValue(FromNat(n), 2);
    FromNatWidth(n);
    PadStart(FromNat(n), 2, '0')
  }

  lemma MinutesBelowHundred(seconds: nat)
    ensures seconds / SecondsPerMinute < 100 <==> seconds < 100 * SecondsPerMinute
  {
  }

  /** Minutes and seconds-within-the-minute recombine uniquely. */
  lemma SplitSeconds(minutes: nat, secs: nat)
    requires secs < SecondsPerMinute
    ensures (minutes * SecondsPerMinute + secs) / SecondsPerMinute == minutes
    ensures (minutes * SecondsPerMinute + secs) % SecondsPerMinute == secs
  {
  }

  lemma JoinSeconds(seconds: nat)
    ensures (seconds / SecondsPerMinute) * SecondsPerMinute + seconds % SecondsPerMinute == seconds
  {
  }

  /** The template literal `${m}:${s}` with a two-character seconds field. */
  function Join(m: string, t: string): (r: string)
    requires |t| == 2
    ensures |r| == |m| + 3 && r[|r| - 3] == ':'
    ensures r[..|r| - 3] == m && r[|r| - 2..] == t
  {
    m + ":" + t
  }

  /** A minutes field as the formatter writes it: two digits, or more without a leading zero. */
  predicate MinutesField(m: string) {
    && 2 <= |m|
    && AllDigits(m)
    && (|m| > 2 ==> m[0] != '0')
  }

  /**
   `formatTime(seconds)`: whole minutes, a colon, and the seconds within the
   minute. Both divisions are floor divisions on a non-negative count.
   */
  function FormatTime(seconds: nat): (r: string)
    ensures |r| >= 5 && r[|r| - 3] == ':'
    ensures MinutesField(r[..|r| - 3]) && AllDigits(r[|r| - 2..])
    ensures Value(r[..|r| - 3]) == seconds / SecondsPerMinute
    ensures Value(r[|r| - 2..]) == seconds % SecondsPerMinute
    ensures |r| == 5 <==> seconds < 100 * SecondsPerMinute
  {
    MinutesBelowHundred(seconds);
    Join(Field(seconds / SecondsPerMinute), Field(seconds % SecondsPerMinute))
  }

  /** Reads `MM:SS` back into a count of seconds; anything else is rejected. */
  function ParseTime(s: string): (r: Option<nat>)
    ensures r.Some? ==> |s| >= 5 && s[|s| - 3] == ':'
  {
    if |s| < 5 || s[|s| - 3] != ':' then None
    else ParseFields(s[..|s| - 3], s[|s| - 2..])
  }

  /** Reads a minutes field and a two-digit seconds field below 60. */
  function ParseFields(m: string, t: string): (r: Option<nat>)
    ensures r.Some? ==> MinutesField(m) && AllDigits(t) && Value(t) < SecondsPerMinute
    ensures r.Some? ==> r.value == Value(m) * SecondsPerMinute + Value(t)
  {
    if MinutesField(m) && AllDigits(t) && Value(t) < SecondsPerMinute
    then Some(Value(m) * SecondsPerMinute + Value(t))
    else None
  }

  lemma ParseFieldsOf(m: string, t: string, minutes: nat, secs: nat)
    requires MinutesField(m) && AllDigits(t) && Value(m) == minutes && Value(t) == secs
    requires secs < SecondsPerMinute
    ensures ParseFields(m, t) == Some(minutes * SecondsPerMinute + secs)
  {
  }

  /** A clock-shaped text is its minutes field, the colon and its seconds field. */
  lemma SplitAtColon(s: string)
    requires |s| >= 5 && s[|s| - 3] == ':'
    ensures s == Join(s[..|s| - 3], s[|s| - 2..])
  {
    assert s == s[..|s| - 3] + [s[|s| - 3]] + s[|s| - 2..];
  }

  /** A padded field is determined by its value. */
  lemma FieldOfValue(f: string)
    requires MinutesField(f)
    ensures Field(Value(f)) == f
  {
    if |f| == 2 {
      ValueBound(f);
      ValueInjective(Field(Value(f)), f);
    } else {
      FromNatOfValue(f);
    }
  }

  /** The reader accepts every clock text and recovers its seconds. */
  lemma ParseFormat(n: nat)
    ensures ParseTime(FormatTime(n)) == Some(n)
  {
    var f := FormatTime(n);
    var m, t := f[..|f| - 3], f[|f| - 2..];
    ParseFieldsOf(m, t, n / SecondsPerMinute, n % SecondsPerMinute);
    JoinSeconds(n);
  }

  /** Whatever the reader accepts is exactly the clock text of the seconds it returns. */
  lemma FormatParse(s: string, n: nat)
    requires ParseTime(s) == Some(n)
    ensures FormatTime(n) == s
  {
    var m, t := s[..|s| - 3], s[|s| - 2..];
    assert ParseFields(m, t) == Some(n);
    var vm, vt := Value(m), Value(t);
    SplitSeconds(vm, vt);
    assert n / SecondsPerMinute == vm && n % SecondsPerMinute == vt;
    FieldOfValue(m);
    ValueInjective(Field(vt), t);
    assert Field(vm) == m && Field(vt) == t;
    SplitAtColon(s);
  }

  /** Reading the clock text back yields the seconds it was made from, and nothing else does. */
  lemma ParseTimeInvertsFormat(s: string, n: nat)
    ensures ParseTime(s) == Some(n) <==> FormatTime(n) == s
  {
    if ParseTime(s) == Some(n) {
      FormatParse(s, n);
    }
    if FormatTime(n) == s {
      ParseFormat(n);
    }
  }

  /** Distinct second counts are shown as distinct clock texts. */
  lemma FormatTimeInjective(a: nat, b: nat)
    ensures FormatTime(a) == FormatTime(b) ==> a == b
  {
    ParseFormat(a);
    ParseFormat(b);
  }
}
