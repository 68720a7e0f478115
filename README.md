# thats-midnight-in: the zone-grouping computation, in Dafny

The page answers "where is it midnight when my clock shows this time?". At
start-up it reads the viewer's own UTC offset. It then scans the catalog of
IANA zone identifiers and computes one key per zone: the viewer's clock time at
the moment that zone reaches its own midnight, `00:00 + localOffset − zoneOffset`
on a time of day with no date. Zones are grouped by that key under their long
display names, with duplicate names collapsed within a key. The keys become the
options of a time selector, sorted by time of day. Selecting one lists that
key's names.

This project models that computation and proves what it promises:

- `OffsetParser` models `parseOffsetString`: the leftmost `±dd:dd` in the text, with the sign applied to both fields.
- `PlainTime` models the time-of-day values used as keys. Keys are seconds since midnight in [0, 86400). Add and subtract wrap around midnight. `String(time)` is the text `HH:MM:SS` and `PlainTime.from` reads that text back.
- `ZoneKey` models `convertTimeZoneToLocalTime` and the initial read of the viewer's offset.
- `ZoneName` models `getTimeZoneName`'s `replace(/^.*(AM|PM) (.*)$/, "$2")`.
- `ZoneGrouping` models `generateZones`:
  - an imperative method with a loop over the catalog, matching the source's `forEach`, `try`/`catch`, `includes` and `push`;
  - a specification function `Group` that the method is proved to compute;
  - lemmas about `Group`.
- `Interface` models the start-up sequence, the sorted option list, the option value / lookup round trip, and the lookup of the selected value.

The platform lookups the program makes are parameters of the model:

- the viewer's own offset string: `Option<string>`, where `None` stands for `undefined`;
- the time zone database's offset string for a zone: `offsetOf: string -> Option<string>`;
- the locale formatter's long-form output for a zone at the fixed instant: `formatOf: string -> Option<string>`.

`None` stands for an exception or an `undefined` result. The instant is fixed
once by the program, so it is folded into these two functions.

The dictionary object is the datatype `Zones`:

- `keys` is the object's property order, which is `Object.keys`. For these non-numeric keys that is insertion order.
- `lists` maps each key to its names.

Facts about the code that the model keeps:

- The page has no "most recent key before a time" query: src/main.ts:105 only reads the selector's current value.
- An empty catalog gives an empty dictionary, not an error (`GenerateZones`).
- The parser does no range check. Each magnitude can be 0 to 99, and minutes are not limited to 0 to 59.

## Model

| member | source | states |
|---|---|---|
| OffsetParser.FirstMatchFrom | src/main.ts:66 | the result is a position where `(\+\|-)\d\d:\d\d` matches, with no match between the start and it; `None` exactly when no match exists from the start on |
| OffsetParser.ParseOffsetString | src/main.ts:62-74 | fails (with the parse error) exactly when no `±dd:dd` occurs anywhere; otherwise the result is the offset at the leftmost match, the sign applied to both fields; hours and minutes always share a sign and have magnitude below 100 |
| OffsetParser.ParseOffsetTextRoundTrip | src/main.ts:66-73 | the text `±HH:MM` for any two-digit magnitudes parses to `(HH, MM)` for `+` and to `(−HH, −MM)` for `-` |
| OffsetParser.ParseAfterPrefix | src/main.ts:66-69 | the match is unanchored: an offset text after any prefix that holds no match, and before any suffix, is the one parsed |
| PlainTime.Add | src/main.ts:57 | adding a duration gives the unique time of day congruent to the sum modulo one day, so it wraps and never carries into a date |
| PlainTime.Subtract | src/main.ts:58 | subtracting a duration gives the unique time of day congruent to the difference modulo one day |
| PlainTime.Parse | src/main.ts:92 | the model of `PlainTime.from` accepts a text only in the shape `dd:dd:dd`, and what it accepts is exactly the canonical text of the time it returns |
| PlainTime.ParseFormat | src/main.ts:24 | every time's text `String(time)` is read back by `PlainTime.from` as that same time |
| PlainTime.FormatInjective | src/main.ts:24-29 | two times have the same key text exactly when they are the same time |
| ZoneKey.MidnightKey | src/main.ts:56-58 | `00:00 + local − zone` lies in [00:00, 24:00), is a whole number of minutes, and equals `(localMinutes − zoneMinutes) mod 1440` minutes |
| ZoneKey.SameOffsetIsMidnight | src/main.ts:56-58 | a zone with the viewer's own offset gets key `00:00` |
| ZoneKey.ZoneLocalTime | src/main.ts:47-60 | an undefined or empty offset string is the "failed to get offset string" error; an unparsable one is the parser's error; otherwise the result is the midnight key for the parsed offset, a whole number of minutes |
| ZoneKey.LocalOffset | src/main.ts:6-7 | an undefined viewer offset string is a type error, since `.match` is called on undefined; any other string is handed to the parser |
| ZoneName.LastMeridiemBelow | src/main.ts:44 | the result is the last position below the bound where `AM ` or `PM ` starts; `None` exactly when none starts below it |
| ZoneName.ExtractName | src/main.ts:44 | when the string is one line and holds `AM ` or `PM `, the result is the suffix after the last occurrence (greedy `.*`); when it holds a line terminator or no occurrence, the string is returned unchanged |
| ZoneName.DisplayName | src/main.ts:38-45 | a formatter that throws for the zone gives the name error; otherwise the name is the extracted suffix of the formatted text |
| ZoneName.ExtractAfterPrefix | src/main.ts:44 | a one-line name free of `AM `/`PM `, placed after any one-line date-and-time prefix and `AM `/`PM `, is recovered whole |
| ZoneGrouping.EntryKeysAreTimes | src/main.ts:22-24 | every key a zone produces is a canonical time text that `PlainTime.from` reads back |
| ZoneGrouping.GenerateZones | src/main.ts:19-36 | the scan's result is the in-order fold `Group` of the per-zone effect over the catalog; an empty catalog gives an empty dictionary |
| ZoneGrouping.DedupMembers | src/main.ts:29-32 | keeping first occurrences keeps exactly the same elements, repeats none, and keeps a non-empty sequence non-empty |
| ZoneGrouping.NamesForMembers | src/main.ts:21-32 | a name is among the names resolving to a key exactly when some catalog zone resolves without an exception to that key and name |
| ZoneGrouping.GroupPerKey | src/main.ts:26-32 | each key's list is the first-seen-order, de-duplicated sequence of the names of the zones resolving to it; a key exists exactly when some zone resolves to it; an absent key looks up as no names |
| ZoneGrouping.GroupValid | src/main.ts:26-32 | property order lists each key once and exactly the keys; every list is non-empty and holds no name twice; every key is a time text |
| ZoneGrouping.GroupMembers | src/main.ts:21-35 | coverage and soundness: a name is under a key exactly when some zone whose name and offset lookups both succeed has that name and key |
| ZoneGrouping.SkipFailing | src/main.ts:22-33 | a zone whose lookup throws leaves the result exactly as if it were absent from the catalog; the scan goes on with the next zone |
| Interface.Initialize | src/main.ts:4-8 | fails exactly when the viewer's offset cannot be read, with that error and before any grouping; otherwise the result is the scan of the catalog and is a valid dictionary |
| Interface.ParseAll | src/main.ts:90-92 | reads every key with `PlainTime.from`, position by position; `None` exactly when some key is unreadable |
| Interface.Insert | src/main.ts:91 | inserting into an ascending sequence keeps it ascending and adds exactly the one element |
| Interface.SortTimes | src/main.ts:91 | the sort is ascending by time of day and a permutation of its input; with distinct inputs it is strictly ascending |
| Interface.InsertStrict | src/main.ts:91 | inserting a new element into a strictly ascending sequence keeps it strictly ascending |
| Interface.OptionValues | src/main.ts:99 | an option value is `String(time)` of the option time at the same position |
| Interface.OptionsMatchKeys | src/main.ts:78-99 | the options are exactly the dictionary's keys, strictly ascending by time of day; the option values `String(time)` are a permutation of the dictionary's keys; each option's value is a key whose list is non-empty; every key has an option |
| Interface.OptionsDetermined | src/main.ts:90-91 | the option order does not depend on the dictionary's property order: any strictly ascending sequence of times whose texts are exactly the keys is the sorted option list |
| Interface.SelectedOptionFindsNames | src/main.ts:76-81 | a key re-stringified as its option value looks up its own non-empty list; a value that is not a key shows no names |
| Interface.ViewerInIndiaZoneInTokyo | src/main.ts:47-60 | for a viewer at +05:30 and a zone at +09:00, the key is 20:30:00 |

## Left out

- DOM access, option and list rendering, event wiring and the selector's label (src/main.ts:10-15, 80-86, 93-104, 106-113). These are user-interface plumbing. The label's text uses the same name extraction, `ZoneName.ExtractName`.
- `Temporal.Now.instant()` and `Temporal.Now.timeZone()`. They become the fixed viewer offset string given to `Interface.Initialize`.
- The time zone database lookup `Temporal.TimeZone.from(zone).getOffsetStringFor(now)` becomes `offsetOf`. An unknown identifier makes `TimeZone.from` throw. The model folds that and an `undefined` result into `None`, which the model reports as the missing-offset error. The source skips the zone in both cases.
- The locale formatter `Intl.DateTimeFormat(...).format(now)` becomes `formatOf`. Its output text is not modelled.
- The catalog contents `IANAZones` are an arbitrary input sequence.
- Short-clock formatting of option labels (src/main.ts:94-96) is locale-dependent display.
- PlainTime.Parse: models `Temporal.PlainTime.from` only on the canonical `HH:MM:SS` text. It does not cover the other forms the library accepts (`HH:MM`, fractional seconds, a leap second 60, full date-time strings). Every key the program produces has the canonical form.
- Interface.SortTimes: the engine's `Array.prototype.sort` algorithm is modelled as an insertion sort with the same comparator. `Interface.OptionsDetermined` shows that the result does not depend on the algorithm here, because the keys are distinct times.
- JavaScript numbers: `Number` of two digits is exact, and the model uses unbounded integers. The sign of a negative zero (`-00:30` gives hours `-0`) is not modelled. It has no effect on the key.
- No default-selection logic: src/main.ts:105 only reads the selector's current value.
- Inherited object properties: `ZoneGrouping.Lookup` treats `zones[key]` (src/main.ts:78) as a plain map lookup and does not model properties inherited from `Object.prototype`, such as `zones["constructor"]`. The selector's value is only ever an option value, which is a time text, or `""`, so no inherited property is ever read.
