/**
  `generateZones`: one scan over the zone catalog that builds a dictionary from
  a clock-time key to the display names of the zones with that key, creating a
  key's list on first use and pushing a name only when the list lacks it.  A zone
  whose name or offset lookup throws is skipped.
 */
module ZoneGrouping {
  import opened Wrappers
  import opened Errors
  import opened OffsetParser
  import PlainTime
  import ZoneKey
  import ZoneName

  /**
    The dictionary object: `keys` is its property order (`Object.keys`, which for
    these non-numeric keys is insertion order) and `lists` its properties.
   */
  datatype Zones = Zones(keys: seq<string>, lists: map<string, seq<string>>)

  const Empty: Zones := Zones([], map[])

  predicate NoDuplicates<T(==)>(s: seq<T>) {
    forall i, j :: 0 <= i < j < |s| ==> s[i] != s[j]
  }

  /** What every dictionary the scan builds satisfies. */
  ghost predicate Valid(z: Zones) {
    && NoDuplicates(z.keys)
    && (forall k :: k in z.lists <==> k in z.keys)
    && (forall k :: k in z.lists ==> PlainTime.Parse(k).Some?)
    && (forall k :: k in z.lists ==> z.lists[k] != [] && NoDuplicates(z.lists[k]))
  }

  /**
    `zones[key]` as the list renderer reads it: an absent key gives no names.
    Properties inherited from `Object.prototype` are not modelled; the selected
    value is always an option value (a time text) or `""`, never such a name.
   */
  function Lookup(z: Zones, key: string): seq<string> {
    if key in z.lists then z.lists[key] else []
  }

  /**
    The body of the `try` for one zone: its display name, then its key as
    `String(convertTimeZoneToLocalTime(zone))`; the first exception is the result.
   */
  function Entry(local: UtcOffset, zone: string,
                 offsetOf: string -> Option<string>, formatOf: string -> Option<string>)
    : (r: Result<(string, string), Error>)
  {
    match ZoneName.DisplayName(zone, formatOf(zone))
    case Failure(e) => Failure(e)
    case Success(name) =>
      match ZoneKey.ZoneLocalTime(local, zone, offsetOf(zone))
      case Failure(e) => Failure(e)
      case Success(t) => Success((PlainTime.Format(t), name))
  }

  /** The `try` body as a function of the zone alone, for a fixed viewer offset and fixed lookups. */
  function EntryOf(local: UtcOffset, offsetOf: string -> Option<string>, formatOf: string -> Option<string>)
    : string -> Result<(string, string), Error>
  {
    zone => Entry(local, zone, offsetOf, formatOf)
  }

  /** Every key an entry function produces is the text of a time. */
  ghost predicate KeysAreTimes(entryOf: string -> Result<(string, string), Error>) {
    forall zone :: entryOf(zone).Success? ==> PlainTime.Parse(entryOf(zone).value.0).Some?
  }

  /** The keys `String(convertTimeZoneToLocalTime(zone))` are canonical time texts that `PlainTime.from` reads back. */
  lemma EntryKeysAreTimes(local: UtcOffset, offsetOf: string -> Option<string>, formatOf: string -> Option<string>)
    ensures KeysAreTimes(EntryOf(local, offsetOf, formatOf))
  {
    forall zone | EntryOf(local, offsetOf, formatOf)(zone).Success?
      ensures PlainTime.Parse(EntryOf(local, offsetOf, formatOf)(zone).value.0).Some?
    {
      var t := ZoneKey.ZoneLocalTime(local, zone, offsetOf(zone)).value;
      PlainTime.ParseFormat(t);
    }
  }

  /** One zone's effect on the dictionary. */
  function Record(z: Zones, e: Result<(string, string), Error>): Zones {
    match e
    case Failure(_) => z
    case Success((key, name)) =>
      if key !in z.lists then Zones(z.keys + [key], z.lists[key := [name]])
      else if name in z.lists[key] then z
      else z.(lists := z.lists[key := z.lists[key] + [name]])
  }

  /** The dictionary after scanning `catalog` in order. */
  function Group(entryOf: string -> Result<(string, string), Error>, catalog: seq<string>): Zones
    decreases |catalog|
  {
    if catalog == [] then Empty
    else Record(Group(entryOf, catalog[..|catalog| - 1]), entryOf(catalog[|catalog| - 1]))
  }

  /** `generateZones`, with the `forEach` as a loop and the `try`/`catch` as a match on the entry. */
  method GenerateZones(local: UtcOffset, catalog: seq<string>,
                       offsetOf: string -> Option<string>, formatOf: string -> Option<string>)
    returns (zones: Zones)
    ensures zones == Group(EntryOf(local, offsetOf, formatOf), catalog)
    ensures catalog == [] ==> zones == Empty
  {
    ghost var entryOf := EntryOf(local, offsetOf, formatOf);
    zones := Zones([], map[]);
    for i := 0 to |catalog|
      invariant zones == Group(entryOf, catalog[..i])
    {
      assert catalog[..i + 1][..i] == catalog[..i];
      var zone := catalog[i];
      var entry := Entry(local, zone, offsetOf, formatOf);
      assert entry == entryOf(zone);
      ghost var before := zones;
      match entry
      case Failure(_) =>
      case Success((localTime, timeZoneName)) =>
        if localTime !in zones.lists {
          zones := zones.(keys := zones.keys + [localTime], lists := zones.lists[localTime := []]);
        }
        if timeZoneName in zones.lists[localTime] {
          continue;
        }
        zones := zones.(lists := zones.lists[localTime := zones.lists[localTime] + [timeZoneName]]);
        assert [] + [timeZoneName] == [timeZoneName];
        assert zones == Record(before, entry);
    }
    assert catalog[..|catalog|] == catalog;
  }

  // ---------------------------------------------------------------------------
  // An independent description of each key's list.

  /** The names of the zones of `catalog` that resolve to `key`, in catalog order, repeats kept. */
  function NamesFor(entryOf: string -> Result<(string, string), Error>, catalog: seq<string>, key: string): seq<string>
    decreases |catalog|
  {
    if catalog == [] then []
    else
      var rest := NamesFor(entryOf, catalog[..|catalog| - 1], key);
      match entryOf(catalog[|catalog| - 1])
      case Success((k, name)) => if k == key then rest + [name] else rest
      case Failure(_) => rest
  }

  /** Each element kept exactly when it does not occur earlier: first occurrences in order. */
  function Dedup<T(==)>(s: seq<T>): seq<T>
    decreases |s|
  {
    if s == [] then []
    else
      var init := s[..|s| - 1];
      Dedup(init) + (if s[|s| - 1] in init then [] else [s[|s| - 1]])
  }

  lemma {:induction false} DedupMembers<T>(s: seq<T>)
    ensures forall x :: x in Dedup(s) <==> x in s
    ensures NoDuplicates(Dedup(s))
    ensures s != [] ==> Dedup(s) != []
    decreases |s|
  {
    if s != [] {
      var init := s[..|s| - 1];
      DedupMembers(init);
      assert s == init + [s[|s| - 1]];
    }
  }

  /** A name is listed for a key exactly when some zone of the catalog resolves to that key and name. */
  lemma {:induction false} NamesForMembers(entryOf: string -> Result<(string, string), Error>,
                                           catalog: seq<string>, key: string, name: string)
    ensures name in NamesFor(entryOf, catalog, key) <==>
            exists i :: 0 <= i < |catalog| && entryOf(catalog[i]) == Success((key, name))
    decreases |catalog|
  {
    if catalog != [] {
      var init := catalog[..|catalog| - 1];
      NamesForMembers(entryOf, init, key, name);
      if exists i :: 0 <= i < |catalog| && entryOf(catalog[i]) == Success((key, name)) {
        var i :| 0 <= i < |catalog| && entryOf(catalog[i]) == Success((key, name));
        if i < |init| {
          assert init[i] == catalog[i];
        }
      }
      if exists i :: 0 <= i < |init| && entryOf(init[i]) == Success((key, name)) {
        var i :| 0 <= i < |init| && entryOf(init[i]) == Success((key, name));
        assert catalog[i] == init[i];
      }
    }
  }

  /** One step of `Record` keeps, for each key, the list equal to the de-duplicated names for that key. */
  lemma RecordPerKey(entryOf: string -> Result<(string, string), Error>, catalog: seq<string>, key: string)
    requires catalog != []
    requires Lookup(Group(entryOf, catalog[..|catalog| - 1]), key) == Dedup(NamesFor(entryOf, catalog[..|catalog| - 1], key))
    requires key in Group(entryOf, catalog[..|catalog| - 1]).lists <==> NamesFor(entryOf, catalog[..|catalog| - 1], key) != []
    ensures Lookup(Group(entryOf, catalog), key) == Dedup(NamesFor(entryOf, catalog, key))
    ensures key in Group(entryOf, catalog).lists <==> NamesFor(entryOf, catalog, key) != []
  {
    var init := catalog[..|catalog| - 1];
    var before := NamesFor(entryOf, init, key);
    var e := entryOf(catalog[|catalog| - 1]);
    DedupMembers(before);
    if e.Success? && e.value.0 == key {
      var s := before + [e.value.1];
      assert s[..|s| - 1] == before;
    }
  }

  /**
    Each key's list is the de-duplicated sequence of the names resolving to that
    key, in first-seen catalog order, and a key is present exactly when some zone
    resolves to it.
   */
  lemma {:induction false} GroupPerKey(entryOf: string -> Result<(string, string), Error>, catalog: seq<string>, key: string)
    ensures Lookup(Group(entryOf, catalog), key) == Dedup(NamesFor(entryOf, catalog, key))
    ensures key in Group(entryOf, catalog).lists <==> NamesFor(entryOf, catalog, key) != []
    decreases |catalog|
  {
    if catalog != [] {
      GroupPerKey(entryOf, catalog[..|catalog| - 1], key);
      RecordPerKey(entryOf, catalog, key);
    }
  }

  /** The scan keeps the dictionary valid: property order matches the keys, and lists are non-empty and repeat-free. */
  lemma {:induction false} GroupValid(entryOf: string -> Result<(string, string), Error>, catalog: seq<string>)
    requires KeysAreTimes(entryOf)
    ensures Valid(Group(entryOf, catalog))
    decreases |catalog|
  {
    if catalog != [] {
      var init := catalog[..|catalog| - 1];
      GroupValid(entryOf, init);
      var z := Group(entryOf, init);
      var e := entryOf(catalog[|catalog| - 1]);
      var z' := Record(z, e);
      if e.Success? {
        var (key, name) := e.value;
        if key !in z.lists {
          assert forall k :: k in z'.lists <==> k in z'.keys;
          assert NoDuplicates(z'.keys);
          assert [name] != [] && NoDuplicates([name]);
        } else if name !in z.lists[key] {
          var l := z.lists[key] + [name];
          assert NoDuplicates(l);
        }
      }
    }
  }

  /**
    Coverage and soundness: a name is listed under a key exactly when some zone of
    the catalog resolves, without an exception, to that key and that name.
   */
  lemma GroupMembers(entryOf: string -> Result<(string, string), Error>, catalog: seq<string>, key: string, name: string)
    ensures name in Lookup(Group(entryOf, catalog), key) <==>
            exists i :: 0 <= i < |catalog| && entryOf(catalog[i]) == Success((key, name))
  {
    GroupPerKey(entryOf, catalog, key);
    DedupMembers(NamesFor(entryOf, catalog, key));
    NamesForMembers(entryOf, catalog, key, name);
  }

  /** A zone whose lookup throws leaves the result as if it were not in the catalog at all. */
  lemma {:induction false} SkipFailing(entryOf: string -> Result<(string, string), Error>,
                                       before: seq<string>, zone: string, after: seq<string>)
    requires entryOf(zone).Failure?
    ensures Group(entryOf, before + [zone] + after) == Group(entryOf, before + after)
    decreases |after|
  {
    if after == [] {
      assert before + [zone] + after == before + [zone];
      assert (before + [zone])[..|before|] == before;
      assert before + after == before;
    } else {
      var init := after[..|after| - 1];
      var last := after[|after| - 1];
      SkipFailing(entryOf, before, zone, init);
      var long := before + [zone] + after;
      var short := before + after;
      assert long[..|long| - 1] == before + [zone] + init && long[|long| - 1] == last;
      assert short[..|short| - 1] == before + init && short[|short| - 1] == last;
    }
  }
}
