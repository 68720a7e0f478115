/**
  A wall-clock time with no date, at second granularity, as `Temporal.PlainTime`
  is used by the program: offset arithmetic wraps around midnight, the value is
  used as a dictionary key through its canonical `HH:MM:SS` text, and that text
  is read back with `PlainTime.from`.
 */
module PlainTime {
  import opened Wrappers
  import OffsetParser

  const SecondsPerDay: int := 86400

  /** Seconds since midnight. */
  type Time = t: int | 0 <= t < SecondsPerDay

  const Midnight: Time := 0

  /** `add` of a duration of `seconds`: the unique time of day congruent to `t + seconds`. */
  function Add(t: Time, seconds: int): (r: Time)
    ensures (r - (t + seconds)) % SecondsPerDay == 0
  {
    (t + seconds) % SecondsPerDay
  }

  /** `subtract` of a duration of `seconds`. */
  function Subtract(t: Time, seconds: int): (r: Time)
    ensures (r - (t - seconds)) % SecondsPerDay == 0
  {
    Add(t, -seconds)
  }

  /** `Temporal.PlainTime.compare`: -1, 0 or 1 as `a` is earlier than, equal to or later than `b`. */
  function Compare(a: Time, b: Time): int {
    if a < b then -1 else if a == b then 0 else 1
  }

  function Pad2(n: nat): (s: string)
    requires n < 100
  {
    [OffsetParser.DigitChar(n / 10), OffsetParser.DigitChar(n % 10)]
  }

  /** `String(time)`: the canonical `HH:MM:SS` text (no fraction, since every value is whole seconds). */
  function Format(t: Time): (s: string)
    ensures |s| == 8
  {
    Pad2(t / 3600) + ":" + Pad2(t / 60 % 60) + ":" + Pad2(t % 60)
  }

  function Field(s: string, i: nat): (n: nat)
    requires i + 2 <= |s| && OffsetParser.IsDigit(s[i]) && OffsetParser.IsDigit(s[i + 1])
    ensures n < 100
  {
    OffsetParser.TwoDigitValue(s[i], s[i + 1])
  }

  /** The text has the shape `dd:dd:dd`. */
  predicate IsCanonicalShape(s: string) {
    |s| == 8 && s[2] == ':' && s[5] == ':' &&
    OffsetParser.IsDigit(s[0]) && OffsetParser.IsDigit(s[1]) &&
    OffsetParser.IsDigit(s[3]) && OffsetParser.IsDigit(s[4]) &&
    OffsetParser.IsDigit(s[6]) && OffsetParser.IsDigit(s[7])
  }

  /** `Temporal.PlainTime.from` on the `HH:MM:SS` form, with hour, minute and second range checks. */
  function Parse(s: string): (r: Option<Time>)
    ensures r.Some? ==> IsCanonicalShape(s) && Format(r.value) == s
  {
    if IsCanonicalShape(s) && Field(s, 0) < 24 && Field(s, 3) < 60 && Field(s, 6) < 60 then
      var t := Field(s, 0) * 3600 + Field(s, 3) * 60 + Field(s, 6);
      FormatOfFields(s);
      Some(t)
    else
      None
  }

  lemma FormatFields(h: nat, m: nat, sec: nat)
    requires h < 24 && m < 60 && sec < 60
    ensures var t := h * 3600 + m * 60 + sec; t < SecondsPerDay && t / 3600 == h && t / 60 % 60 == m && t % 60 == sec
  {
    var t := h * 3600 + m * 60 + sec;
    assert t / 60 == h * 60 + m;
  }

  lemma Pad2Digits(a: char, b: char)
    requires OffsetParser.IsDigit(a) && OffsetParser.IsDigit(b)
    ensures Pad2(OffsetParser.TwoDigitValue(a, b)) == [a, b]
  {
    var n := OffsetParser.TwoDigitValue(a, b);
    assert n / 10 == OffsetParser.DigitValue(a) && n % 10 == OffsetParser.DigitValue(b);
  }

  lemma FormatOfFields(s: string)
    requires IsCanonicalShape(s) && Field(s, 0) < 24 && Field(s, 3) < 60 && Field(s, 6) < 60
    ensures var t := Field(s, 0) * 3600 + Field(s, 3) * 60 + Field(s, 6); t < SecondsPerDay && Format(t) == s
  {
    var h, m, sec := Field(s, 0), Field(s, 3), Field(s, 6);
    FormatFields(h, m, sec);
    Pad2Digits(s[0], s[1]);
    Pad2Digits(s[3], s[4]);
    Pad2Digits(s[6], s[7]);
    var t := h * 3600 + m * 60 + sec;
    assert Format(t) == [s[0], s[1]] + ":" + [s[3], s[4]] + ":" + [s[6], s[7]];
  }

  lemma Pad2Value(n: nat)
    requires n < 100
    ensures OffsetParser.TwoDigitValue(Pad2(n)[0], Pad2(n)[1]) == n
  {
  }

  lemma Decompose(t: Time)
    ensures t / 3600 < 24 && t / 60 % 60 < 60 && t % 60 < 60
    ensures t == t / 3600 * 3600 + t / 60 % 60 * 60 + t % 60
  {
    var m := t / 60;
    assert t == m * 60 + t % 60;
    assert m == m / 60 * 60 + m % 60;
    assert m / 60 == t / 3600;
  }

  /** Every time survives format then parse: the option value written at `String(time)` reads back as that time. */
  lemma ParseFormat(t: Time)
    ensures Parse(Format(t)) == Some(t)
  {
    var s := Format(t);
    var h, m, sec := t / 3600, t / 60 % 60, t % 60;
    Decompose(t);
    Pad2Value(h);
    Pad2Value(m);
    Pad2Value(sec);
    assert s[0] == Pad2(h)[0] && s[1] == Pad2(h)[1];
    assert s[3] == Pad2(m)[0] && s[4] == Pad2(m)[1];
    assert s[6] == Pad2(sec)[0] && s[7] == Pad2(sec)[1];
    assert IsCanonicalShape(s);
    assert Field(s, 0) == h && Field(s, 3) == m && Field(s, 6) == sec;
  }

  /** Formatting is injective, so distinct times are distinct keys. */
  lemma FormatInjective(a: Time, b: Time)
    ensures Format(a) == Format(b) <==> a == b
  {
    if Format(a) == Format(b) {
      ParseFormat(a);
      ParseFormat(b);
    }
  }
}
