/**
  `getTimeZoneName`: the long-form formatted instant, e.g.
  `10/14/2026, 3:45:12 PM Central European Summer Time`, reduced by
  `.replace(/^.*(AM|PM) (.*)$/, "$2")` to the text after the last `AM ` or `PM `.
 */
module ZoneName {
  import opened Wrappers
  import opened Errors

  /** The characters `.` does not match without the `s` flag. */
  predicate IsLineTerminator(c: char) {
    c == '\n' || c == '\r' || c == '\U{2028}' || c == '\U{2029}'
  }

  /** With no `m` flag, `^` and `$` anchor the whole string, so every character must be matched by `.`. */
  predicate IsSingleLine(s: string) {
    forall i :: 0 <= i < |s| ==> !IsLineTerminator(s[i])
  }

  /** The group `(AM|PM) ` occurs at index `p`. */
  predicate MeridiemAt(s: string, p: int) {
    0 <= p && p + 3 <= |s| && (s[p] == 'A' || s[p] == 'P') && s[p + 1] == 'M' && s[p + 2] == ' '
  }

  /** `p` is the last such occurrence: where the greedy `.*` leaves the group. */
  predicate IsLastMeridiem(s: string, p: int) {
    MeridiemAt(s, p) && forall q :: p < q < |s| ==> !MeridiemAt(s, q)
  }

  /** The last occurrence below `n`, scanning backwards as the greedy prefix backtracks. */
  function LastMeridiemBelow(s: string, n: nat): (r: Option<nat>)
    requires n <= |s|
    ensures r.Some? ==> r.value < n && MeridiemAt(s, r.value)
    ensures r.Some? ==> forall q :: r.value < q < n ==> !MeridiemAt(s, q)
    ensures r.None? ==> forall q :: q < n ==> !MeridiemAt(s, q)
  {
    if n == 0 then None
    else if MeridiemAt(s, n - 1) then Some(n - 1)
    else LastMeridiemBelow(s, n - 1)
  }

  /**
    The replace: when the whole string is one line and holds `AM ` or `PM `, the
    suffix after the last occurrence; otherwise the regex does not match and the
    string is returned unchanged.
   */
  function ExtractName(s: string): (r: string)
    ensures !IsSingleLine(s) ==> r == s
    ensures (forall p :: !MeridiemAt(s, p)) ==> r == s
    ensures forall p :: IsSingleLine(s) && IsLastMeridiem(s, p) ==> r == s[p + 3..]
    ensures |r| <= |s|
  {
    if !IsSingleLine(s) then s
    else
      match LastMeridiemBelow(s, |s|)
      case None => s
      case Some(p) => s[p + 3..]
  }

  /**
    The name lookup for one zone: the locale formatter's output (`None` when it
    throws for an unknown zone) reduced by `ExtractName`.
   */
  function DisplayName(zone: string, formatted: Option<string>): (r: Result<string, Error>)
    ensures formatted.None? <==> r == Failure(NameUnavailable(zone))
    ensures formatted.Some? ==> r == Success(ExtractName(formatted.value))
  {
    match formatted
    case None => Failure(NameUnavailable(zone))
    case Some(text) => Success(ExtractName(text))
  }

  /** A long-form name that itself contains no `AM `/`PM ` is recovered whole from any one-line prefix. */
  lemma {:induction false} ExtractAfterPrefix(prefix: string, meridiem: char, name: string)
    requires meridiem == 'A' || meridiem == 'P'
    requires IsSingleLine(prefix) && IsSingleLine(name)
    requires forall q :: !MeridiemAt(name, q)
    ensures ExtractName(prefix + [meridiem, 'M', ' '] + name) == name
  {
    var s := prefix + [meridiem, 'M', ' '] + name;
    var k := |prefix|;
    assert MeridiemAt(s, k);
    forall q | k < q < |s| ensures !MeridiemAt(s, q) {
      if q + 3 <= |s| {
        if q >= k + 3 {
          assert s[q..q + 3] == name[q - k - 3..q - k];
          assert !MeridiemAt(name, q - k - 3);
        } else if q == k + 1 {
          assert s[q] == 'M';
        } else {
          assert s[q] == ' ';
        }
      }
    }
    assert IsSingleLine(s) by {
      forall i | 0 <= i < |s| ensures !IsLineTerminator(s[i]) {
        if i < k { assert s[i] == prefix[i]; }
        else if i >= k + 3 { assert s[i] == name[i - k - 3]; }
      }
    }
    assert IsLastMeridiem(s, k);
    assert s[k + 3..] == name;
  }
}
