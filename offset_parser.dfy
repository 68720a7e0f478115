/**
  The offset-string parser `parseOffsetString`: the first `(+|-)dd:dd`
  anywhere in the text gives the hours and the minutes, and the sign
  applies to both.  No range check is made on either field.
 */
module OffsetParser {
  import opened Wrappers
  import opened Errors

  /** A displacement from UTC; both fields carry the sign of the text. */
  datatype UtcOffset = UtcOffset(hours: int, minutes: int)

  /** `\d` in a JavaScript regular expression: an ASCII digit. */
  predicate IsDigit(c: char) {
    '0' <= c <= '9'
  }

  function DigitValue(c: char): (d: nat)
    requires IsDigit(c)
    ensures d < 10
  {
    c as int - '0' as int
  }

  function DigitChar(d: nat): (c: char)
    requires d < 10
    ensures IsDigit(c) && DigitValue(c) == d
  {
    ('0' as int + d) as char
  }

  /** `Number` applied to a two-digit group. */
  function TwoDigitValue(hi: char, lo: char): (n: nat)
    requires IsDigit(hi) && IsDigit(lo)
    ensures n < 100
  {
    10 * DigitValue(hi) + DigitValue(lo)
  }

  predicate IsSign(c: char) {
    c == '+' || c == '-'
  }

  /** The pattern `(\+|-)(\d\d):(\d\d)` matches `s` starting at index `i`. */
  predicate MatchesAt(s: string, i: int) {
    0 <= i && i + 6 <= |s| &&
    IsSign(s[i]) && IsDigit(s[i + 1]) && IsDigit(s[i + 2]) &&
    s[i + 3] == ':' && IsDigit(s[i + 4]) && IsDigit(s[i + 5])
  }

  /** `i` is where an unanchored, non-global `match` finds the pattern: the leftmost match. */
  predicate IsFirstMatch(s: string, i: int) {
    MatchesAt(s, i) && forall j :: 0 <= j < i ==> !MatchesAt(s, j)
  }

  /** The offset denoted by the match at `i`: the sign applied to both groups. */
  function OffsetAt(s: string, i: int): UtcOffset
    requires MatchesAt(s, i)
  {
    var sign := if s[i] == '+' then 1 else -1;
    UtcOffset(TwoDigitValue(s[i + 1], s[i + 2]) * sign, TwoDigitValue(s[i + 4], s[i + 5]) * sign)
  }

  /** The leftmost match at or after `from`. */
  function FirstMatchFrom(s: string, from: nat): (r: Option<nat>)
    requires from <= |s|
    decreases |s| - from
    ensures r.Some? ==> from <= r.value && MatchesAt(s, r.value)
    ensures r.Some? ==> forall j :: from <= j < r.value ==> !MatchesAt(s, j)
    ensures r.None? ==> forall j :: from <= j ==> !MatchesAt(s, j)
  {
    if from + 6 > |s| then None
    else if MatchesAt(s, from) then Some(from)
    else FirstMatchFrom(s, from + 1)
  }

  /** Both fields share a sign and each magnitude is below 100. */
  predicate SameSignTwoDigits(o: UtcOffset) {
    (0 <= o.hours < 100 && 0 <= o.minutes < 100) ||
    (-100 < o.hours <= 0 && -100 < o.minutes <= 0)
  }

  /** `parseOffsetString`: fails exactly when no `±dd:dd` occurs; otherwise the leftmost one is used. */
  function ParseOffsetString(s: string): (r: Result<UtcOffset, Error>)
    ensures r.Failure? <==> forall i :: !MatchesAt(s, i)
    ensures r.Failure? ==> r.error == UnparsableOffset(s)
    ensures forall i :: IsFirstMatch(s, i) ==> r == Success(OffsetAt(s, i))
    ensures r.Success? ==> SameSignTwoDigits(r.value)
  {
    match FirstMatchFrom(s, 0)
    case None => Failure(UnparsableOffset(s))
    case Some(i) => Success(OffsetAt(s, i))
  }

  /** The text `±HH:MM` for two-digit magnitudes. */
  function OffsetText(negative: bool, h: nat, m: nat): (s: string)
    requires h < 100 && m < 100
  {
    [if negative then '-' else '+',
     DigitChar(h / 10), DigitChar(h % 10), ':', DigitChar(m / 10), DigitChar(m % 10)]
  }

  /** Parsing the text of a signed offset recovers its magnitudes with the sign on both. */
  lemma ParseOffsetTextRoundTrip(negative: bool, h: nat, m: nat)
    requires h < 100 && m < 100
    ensures ParseOffsetString(OffsetText(negative, h, m))
            == Success(if negative then UtcOffset(-(h as int), -(m as int)) else UtcOffset(h, m))
  {
    var s := OffsetText(negative, h, m);
    assert IsFirstMatch(s, 0);
  }

  /** Whether the pattern matches at `j` depends only on the six characters from `j`. */
  lemma MatchesInPrefix(p: string, s: string, j: nat)
    requires j + 6 <= |p| <= |s| && p == s[..|p|]
    ensures MatchesAt(s, j) == MatchesAt(p, j)
  {
    assert s[j..j + 6] == p[j..j + 6];
  }

  /** The offset text may be embedded anywhere, as in `GMT+05:30`: a prefix with no match is skipped. */
  lemma ParseAfterPrefix(prefix: string, negative: bool, h: nat, m: nat, suffix: string)
    requires h < 100 && m < 100
    requires forall i :: !MatchesAt(prefix + OffsetText(negative, h, m)[..5], i)
    ensures ParseOffsetString(prefix + OffsetText(negative, h, m) + suffix)
            == Success(if negative then UtcOffset(-(h as int), -(m as int)) else UtcOffset(h, m))
  {
    var t := OffsetText(negative, h, m);
    var s := prefix + t + suffix;
    var k := |prefix|;
    assert s[k..k + 6] == t;
    assert MatchesAt(s, k);
    var p := prefix + t[..5];
    assert p == s[..k + 5];
    forall j | 0 <= j < k ensures !MatchesAt(s, j) {
      assert !MatchesAt(p, j);
      MatchesInPrefix(p, s, j);
    }
    assert IsFirstMatch(s, k);
  }
}
