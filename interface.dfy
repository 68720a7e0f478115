/**
  What the page does with the dictionary: the start-up sequence that reads the
  viewer's offset before any grouping, the sorted option list whose values are
  `String(PlainTime.from(key))`, and the lookup of the selected value.
 */
module Interface {
  import opened Wrappers
  import opened Errors
  import opened OffsetParser
  import PlainTime
  import ZoneKey
  import opened ZoneGrouping

  /**
    Start-up: parse the viewer's own offset string (an exception here aborts the
    whole page before any grouping), then scan the catalog with it.
   */
  method Initialize(localOffsetString: Option<string>, catalog: seq<string>,
                    offsetOf: string -> Option<string>, formatOf: string -> Option<string>)
    returns (r: Result<Zones, Error>)
    ensures r.Failure? <==> ZoneKey.LocalOffset(localOffsetString).Failure?
    ensures r.Failure? ==> r.error == ZoneKey.LocalOffset(localOffsetString).error
    ensures r.Success? ==>
              r.value == Group(EntryOf(ZoneKey.LocalOffset(localOffsetString).value, offsetOf, formatOf), catalog)
    ensures r.Success? ==> Valid(r.value)
  {
    var localOffset := ZoneKey.LocalOffset(localOffsetString);
    if localOffset.Failure? {
      return Failure(localOffset.error);
    }
    var zones := GenerateZones(localOffset.value, catalog, offsetOf, formatOf);
    EntryKeysAreTimes(localOffset.value, offsetOf, formatOf);
    GroupValid(EntryOf(localOffset.value, offsetOf, formatOf), catalog);
    r := Success(zones);
  }

  /** `PlainTime.from` on each key; one unreadable key makes the comparator throw. */
  function ParseAll(keys: seq<string>): (r: Option<seq<PlainTime.Time>>)
    ensures r.Some? ==> |r.value| == |keys| && forall i :: 0 <= i < |keys| ==> PlainTime.Parse(keys[i]) == Some(r.value[i])
    ensures r.None? ==> exists i :: 0 <= i < |keys| && PlainTime.Parse(keys[i]).None?
  {
    if keys == [] then Some([])
    else
      match (PlainTime.Parse(keys[0]), ParseAll(keys[1..]))
      case (Some(t), Some(ts)) => Some([t] + ts)
      case (None, _) => None
      case (_, None) =>
        assert forall i :: 0 <= i < |keys| - 1 ==> keys[1..][i] == keys[i + 1];
        None
  }

  predicate Ascending(s: seq<PlainTime.Time>) {
    forall i, j :: 0 <= i < j < |s| ==> s[i] <= s[j]
  }

  predicate StrictlyAscending(s: seq<PlainTime.Time>) {
    forall i, j :: 0 <= i < j < |s| ==> s[i] < s[j]
  }

  /** The head of an ascending `s` bounds everything `Insert(x, s[1..])` holds when it is below `x`. */
  lemma HeadBelowInserted(x: PlainTime.Time, s: seq<PlainTime.Time>, rest: seq<PlainTime.Time>)
    requires s != [] && Ascending(s) && s[0] < x
    requires multiset(rest) == multiset(s[1..]) + multiset{x}
    ensures forall i :: 0 <= i < |rest| ==> s[0] <= rest[i]
    ensures StrictlyAscending(s) ==> forall i :: 0 <= i < |rest| ==> s[0] < rest[i]
  {
    forall i | 0 <= i < |rest| ensures s[0] <= rest[i] && (StrictlyAscending(s) ==> s[0] < rest[i]) {
      assert rest[i] in multiset(rest);
      assert rest[i] in multiset(s[1..]) + multiset{x};
      if rest[i] != x {
        assert rest[i] in s[1..];
        var j :| 0 <= j < |s[1..]| && s[1..][j] == rest[i];
        assert s[j + 1] == rest[i];
      }
    }
  }

  lemma ConsAscending(h: PlainTime.Time, rest: seq<PlainTime.Time>)
    requires Ascending(rest)
    requires forall i :: 0 <= i < |rest| ==> h <= rest[i]
    ensures Ascending([h] + rest)
  {
    var r := [h] + rest;
    forall i, j | 0 <= i < j < |r| ensures r[i] <= r[j] {
      assert r[j] == rest[j - 1];
      if i > 0 { assert r[i] == rest[i - 1]; }
    }
  }

  /** Places `x` before the first element it does not compare after. */
  function Insert(x: PlainTime.Time, s: seq<PlainTime.Time>): (r: seq<PlainTime.Time>)
    requires Ascending(s)
    ensures Ascending(r)
    ensures multiset(r) == multiset(s) + multiset{x}
  {
    if s == [] then [x]
    else if PlainTime.Compare(x, s[0]) <= 0 then
      assert forall i :: 0 <= i < |s| ==> s[0] <= s[i];
      ConsAscending(x, s);
      [x] + s
    else
      var rest := Insert(x, s[1..]);
      assert s == [s[0]] + s[1..];
      assert multiset(s) == multiset{s[0]} + multiset(s[1..]);
      HeadBelowInserted(x, s, rest);
      ConsAscending(s[0], rest);
      [s[0]] + rest
  }

  lemma {:induction false} InsertStrict(x: PlainTime.Time, s: seq<PlainTime.Time>)
    requires Ascending(s)
    ensures StrictlyAscending(s) && x !in s ==> StrictlyAscending(Insert(x, s))
    decreases |s|
  {
    if StrictlyAscending(s) && x !in s && s != [] && PlainTime.Compare(x, s[0]) > 0 {
      InsertStrict(x, s[1..]);
      var rest := Insert(x, s[1..]);
      HeadBelowInserted(x, s, rest);
    }
  }

  /** `.sort(Temporal.PlainTime.compare)`: ascending by time of day, a permutation of its input. */
  function SortTimes(s: seq<PlainTime.Time>): (r: seq<PlainTime.Time>)
    ensures Ascending(r)
    ensures multiset(r) == multiset(s)
    ensures NoDuplicates(s) ==> StrictlyAscending(r)
  {
    if s == [] then []
    else
      assert s == [s[0]] + s[1..];
      var rest := SortTimes(s[1..]);
      assert NoDuplicates(s) ==> s[0] !in multiset(s[1..]);
      InsertStrict(s[0], rest);
      Insert(s[0], rest)
  }

  /** The option times, in the order the options are appended. */
  function SortKeys(keys: seq<string>): Option<seq<PlainTime.Time>> {
    match ParseAll(keys)
    case None => None
    case Some(ts) => Some(SortTimes(ts))
  }

  /** The option values, `String(time)` of each option time. */
  function OptionValues(times: seq<PlainTime.Time>): (values: seq<string>)
    ensures |values| == |times|
    ensures forall i :: 0 <= i < |times| ==> values[i] == PlainTime.Format(times[i])
  {
    if times == [] then [] else [PlainTime.Format(times[0])] + OptionValues(times[1..])
  }

  lemma OptionValuesAppend(a: seq<PlainTime.Time>, b: seq<PlainTime.Time>)
    ensures OptionValues(a + b) == OptionValues(a) + OptionValues(b)
  {
    assert forall i :: 0 <= i < |a + b| ==> OptionValues(a + b)[i] == (OptionValues(a) + OptionValues(b))[i];
  }

  /** Stringifying a permutation of the option times gives a permutation of their texts. */
  lemma {:induction false} OptionValuesPermutation(a: seq<PlainTime.Time>, b: seq<PlainTime.Time>)
    requires multiset(a) == multiset(b)
    ensures multiset(OptionValues(a)) == multiset(OptionValues(b))
    decreases |a|
  {
    if a == [] {
      assert |multiset(b)| == 0;
    } else {
      assert a[0] in multiset(b);
      var j :| 0 <= j < |b| && b[j] == a[0];
      var rest := b[..j] + b[j + 1..];
      assert b == b[..j] + [b[j]] + b[j + 1..];
      assert multiset(b) == multiset(b[..j]) + multiset{b[j]} + multiset(b[j + 1..]);
      assert multiset(rest) == multiset(b[..j]) + multiset(b[j + 1..]);
      assert a == [a[0]] + a[1..];
      assert multiset(a) == multiset{a[0]} + multiset(a[1..]);
      assert multiset(rest) + multiset{a[0]} == multiset(b);
      assert multiset(a[1..]) == multiset(a) - multiset{a[0]};
      assert multiset(rest) == multiset(b) - multiset{a[0]};
      OptionValuesPermutation(a[1..], rest);
      OptionValuesAppend(b[..j] + [b[j]], b[j + 1..]);
      OptionValuesAppend(b[..j], [b[j]]);
      OptionValuesAppend(b[..j], b[j + 1..]);
      OptionValuesAppend([a[0]], a[1..]);
    }
  }

  /** Stringifying the times read from key texts gives those texts back. */
  lemma OptionValuesOfParsed(keys: seq<string>, ts: seq<PlainTime.Time>)
    requires ParseAll(keys) == Some(ts)
    ensures OptionValues(ts) == keys
  {
    forall i | 0 <= i < |ts| ensures OptionValues(ts)[i] == keys[i] {
      assert PlainTime.Parse(keys[i]) == Some(ts[i]);
    }
  }

  /** Distinct texts of valid times parse to distinct times. */
  lemma ParseAllDistinct(keys: seq<string>, ts: seq<PlainTime.Time>)
    requires ParseAll(keys) == Some(ts)
    requires NoDuplicates(keys)
    ensures NoDuplicates(ts)
  {
    forall i, j | 0 <= i < j < |ts| ensures ts[i] != ts[j] {
      assert PlainTime.Parse(keys[i]) == Some(ts[i]) && PlainTime.Parse(keys[j]) == Some(ts[j]);
      assert PlainTime.Format(ts[i]) == keys[i] && PlainTime.Format(ts[j]) == keys[j];
    }
  }

  /**
    The options are the dictionary's keys, each read back by `PlainTime.from`,
    strictly ascending by time of day; each option's value `String(time)` is a key
    of the dictionary whose list is non-empty, and every key has an option.
   */
  lemma OptionsMatchKeys(z: Zones)
    requires Valid(z)
    ensures SortKeys(z.keys).Some?
    ensures StrictlyAscending(SortKeys(z.keys).value)
    ensures |SortKeys(z.keys).value| == |z.keys|
    ensures forall t :: t in SortKeys(z.keys).value ==> PlainTime.Format(t) in z.lists
    ensures forall t :: t in SortKeys(z.keys).value ==> Lookup(z, PlainTime.Format(t)) == z.lists[PlainTime.Format(t)] != []
    ensures forall k :: k in z.lists ==> PlainTime.Parse(k).Some? && PlainTime.Parse(k).value in SortKeys(z.keys).value
    ensures multiset(OptionValues(SortKeys(z.keys).value)) == multiset(z.keys)
  {
    var p := ParseAll(z.keys);
    var ts := p.value;
    ParseAllDistinct(z.keys, ts);
    var sorted := SortTimes(ts);
    forall t | t in sorted ensures PlainTime.Format(t) in z.lists {
      assert t in multiset(ts);
      var i :| 0 <= i < |ts| && ts[i] == t;
      assert PlainTime.Parse(z.keys[i]) == Some(t);
      assert z.keys[i] in z.lists;
    }
    forall k | k in z.lists ensures PlainTime.Parse(k).Some? && PlainTime.Parse(k).value in sorted {
      var i :| 0 <= i < |z.keys| && z.keys[i] == k;
      assert ts[i] in multiset(sorted);
    }
    OptionValuesOfParsed(z.keys, ts);
    OptionValuesPermutation(sorted, ts);
  }

  /**
    The option order does not depend on the dictionary's property order: any
    strictly ascending sequence of times whose texts are exactly the keys is it.
   */
  lemma OptionsDetermined(z: Zones, other: seq<PlainTime.Time>)
    requires Valid(z)
    requires StrictlyAscending(other)
    requires forall t :: t in other <==> PlainTime.Format(t) in z.lists
    ensures SortKeys(z.keys) == Some(other)
  {
    OptionsMatchKeys(z);
    var sorted := SortKeys(z.keys).value;
    assert forall t :: t in sorted <==> t in other by {
      forall t ensures t in sorted <==> t in other {
        if PlainTime.Format(t) in z.lists {
          PlainTime.ParseFormat(t);
        }
      }
    }
    StrictSameElements(sorted, other);
  }

  lemma {:induction false} StrictSameElements(a: seq<PlainTime.Time>, b: seq<PlainTime.Time>)
    requires StrictlyAscending(a) && StrictlyAscending(b)
    requires forall t :: t in a <==> t in b
    ensures a == b
    decreases |a|
  {
    assert b != [] ==> b[0] in b;
    if a != [] {
      assert a[0] in b;
      var j :| 0 <= j < |b| && b[j] == a[0];
      var i :| 0 <= i < |a| && a[i] == b[0];
      assert a[0] <= a[i] && b[0] <= b[j];
      assert a[0] == b[0];
      forall t ensures t in a[1..] <==> t in b[1..] {
        if t in a[1..] { assert t in a && t != a[0]; }
        if t in b[1..] { assert t in b && t != b[0]; }
      }
      StrictSameElements(a[1..], b[1..]);
      assert a == [a[0]] + a[1..] && b == [b[0]] + b[1..];
    }
  }

  /**
    Selecting an option: its value, `String(PlainTime.from(key))`, is the key it
    came from, so the lookup finds that key's names; a value no key has shows no names.
   */
  lemma SelectedOptionFindsNames(z: Zones, key: string)
    requires Valid(z)
    ensures key in z.lists ==>
              PlainTime.Parse(key).Some? && PlainTime.Format(PlainTime.Parse(key).value) == key &&
              Lookup(z, PlainTime.Format(PlainTime.Parse(key).value)) == z.lists[key] != []
    ensures key !in z.lists ==> Lookup(z, key) == []
  {
  }

  /** The example of a viewer at +05:30 and a zone at +09:00: midnight there is 20:30 here. */
  lemma ViewerInIndiaZoneInTokyo()
    ensures ZoneKey.ZoneLocalTime(UtcOffset(5, 30), "Asia/Tokyo", Some("+09:00")) == Success(73800)
    ensures PlainTime.Format(73800) == "20:30:00"
  {
    ParseOffsetTextRoundTrip(false, 9, 0);
    assert OffsetText(false, 9, 0) == "+09:00";
    assert ParseOffsetString("+09:00") == Success(UtcOffset(9, 0));
    var key := ZoneKey.MidnightKey(UtcOffset(5, 30), UtcOffset(9, 0));
    assert key == ((330 - 540) % 1440) * 60;
    assert (330 - 540) % 1440 == 1230;
    assert PlainTime.Format(73800) == PlainTime.Pad2(20) + ":" + PlainTime.Pad2(30) + ":" + PlainTime.Pad2(0);
  }
}
