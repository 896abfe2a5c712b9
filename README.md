# WMATA station resolver, in Dafny

This project models the rail station resolver of the `wmata2` client library
(`wmata2/utilities.py`). It has two directions:

- `get_station_code` turns a station name into its three-character station code.
- `get_station_name` turns a code back into the station's name.

Both read the rail GTFS static stops table (`stops.txt`). The model takes the
table as an already parsed `seq<Row>` of `(stop_id, stop_name)` pairs, plus a
`bool` that says whether the file exists. Raised exceptions are values:
`Result<T> = Ok(value) | Raise(FileNotFoundError | ValueError | IndexError)`.
Python's `None` is `Option.None`.

- `builtins.dfy` (module `Builtins`) holds the Python built-ins the resolver
  uses: `str.startswith`, the slices `s[n:]` and `s[-n:]`, `str.lower`,
  `list.index` (which raises `ValueError`) and `xs[0]` (which raises
  `IndexError`).
- `utilities.dfy` (module `Utilities`) holds the resolver itself.
  - `GetStationCode` is a recursive function, as in the source. Its
    `decreases` measure is 0 when the lowered name is in the name list and 1
    otherwise. That measure proves the recursion is at most one level deep.
  - `GetStationName` is a method with the source's loop. It is proved against
    the specification function `NameForCode`.
- `resolver_properties.dfy` (module `ResolverProperties`) restates what
  `get_station_code` returns in terms of the table itself: the first station in
  table order, the fallback that resolves in one extra step, and exactly when
  `IndexError` and `None` occur. It also holds the two round trips.
- `resolver_scenarios.dfy` (module `ResolverScenarios`) holds small concrete
  tables. Each shows one behaviour, or one table on which a round trip fails
  because an assumption is missing.

`difflib.get_close_matches(word, possibilities, n=1, cutoff=0.2)` is an oracle
parameter `closeMatches`. The model assumes only what `IsCloseMatcher` states:
the matcher returns at most one candidate, and any candidate comes from the
list it was given.

The two directions differ in the source:

- Name → code keeps rows whose id starts with `"STN"` and takes the last three
  characters (`[-3:]`).
- Code → name keeps rows whose id starts with `"STN_"` and compares what
  follows the first four characters (`[4:]`), case-sensitively.
- Name → code compares lowered names.

The round trips are proved on tables that meet some of these clauses:

- `StationIdsAreCodes`: every station id is `"STN_"` followed by three characters;
- `StationNamesDistinct`: no two station rows share a lowered name;
- `StationIdsDistinct`: no two station rows share an id. GTFS makes `stop_id`
  unique in `stops.txt`, so real data meets this clause.

Name → code → name is proved on a `WellFormed` table, which meets all three.
Code → name → code needs only the first two. `ResolverScenarios` shows
tables on which a round trip fails: one with an id of another shape, and one
with a duplicated id. The round trips can also hold on some tables that are
not `WellFormed`, such as a table with two identical station rows.

The `else` branch at wmata2/utilities.py:174-175 logs an error, and
wmata2/utilities.py:176 then returns `None`. An unresolvable name does not
reach them. When the matcher finds no
candidate, `get_close_matches(...)[0]` raises `IndexError` first
(wmata2/utilities.py:165-167). The model follows the code as written.
With the abstract matcher, `return None` is reached only when the candidate
is the empty string, so some station row must have an empty name. With the
real `difflib` and its 0.2 cutoff, an empty candidate is never chosen. Its
similarity to a non-empty word is 0. An empty word that misses gets no
candidate at all. So `return None` at wmata2/utilities.py:176 cannot be
reached in the program; only the abstract matcher reaches it.

## Model

| member | source | states |
|---|---|---|
| `Builtins.LowerIsIdempotent` | wmata2/utilities.py:160-162 | lowering a lowered name changes nothing, so a name taken from the lowered list matches itself |
| `Builtins.StartsWith` | wmata2/utilities.py:158 | `str.startswith`: true exactly when the prefix is no longer than the string and agrees with it character by character |
| `Builtins.DropFirst` | wmata2/utilities.py:200 | `s[4:]` as Python slices it: `""` when the string has at most four characters, otherwise the rest after the first four |
| `Builtins.LastN` | wmata2/utilities.py:163 | `s[-3:]` as Python slices it: the whole string when it is shorter than three characters, otherwise its last three characters |
| `Builtins.Lower` | wmata2/utilities.py:160-162 | `str.lower` (ASCII only): same length, every letter `A`-`Z` mapped to lowercase, every other character kept |
| `Builtins.First` | wmata2/utilities.py:165-167 | `xs[0]`: the first element, and `IndexError` exactly when the list is empty |
| `Builtins.IndexOf` | wmata2/utilities.py:162 | `list.index`: returns the first position holding the value; raises `ValueError` exactly when the value is absent |
| `Utilities.Stations` | wmata2/utilities.py:158 | the filtered list holds exactly the rows whose `stop_id` starts with `"STN"` |
| `Utilities.StationNames` | wmata2/utilities.py:160 | the name list has one entry per station row, in order, each the lowered `stop_name` of that row |
| `Utilities.StationNameIsLowered` | wmata2/utilities.py:160 | every entry of the station name list is already lowercase |
| `Utilities.GetStationCode` | wmata2/utilities.py:137-176 | missing file raises `FileNotFoundError` before any lookup; `ValueError` never escapes; a returned code is the last three characters of the id of a station row; `None` only if some station row has an empty name (which the real matcher never picks); recursion at most one level deep (the `decreases` measure) |
| `Utilities.NameForCode` | wmata2/utilities.py:199-202 | the name on the first row in file order whose id is `"STN_"` followed by the code; `ValueError` exactly when no row has the code |
| `Utilities.GetStationName` | wmata2/utilities.py:179-202 | missing file raises `FileNotFoundError`; otherwise the loop's result is the first row with the code, or `ValueError`, never `None` |
| `ResolverProperties.NameListHoldsStationNames` | wmata2/utilities.py:158-162 | a lowered name is in the name list exactly when some station row of the table has it |
| `ResolverProperties.FirstNamedStationIsFirstInList` | wmata2/utilities.py:158-160 | filtering keeps table order: the first station row with a name comes before every other station row with that name |
| `ResolverProperties.IndexFindsFirstNamedStation` | wmata2/utilities.py:158-163 | `index` on the name list lands on the first station row, in table order, with the lowered name |
| `ResolverProperties.FirstNamedStationExists` | wmata2/utilities.py:162 | a name that some station row has also has a first such row |
| `ResolverProperties.ExactMatchReturnsFirstStation` | wmata2/utilities.py:160-163 | for any spelling whose lowercase form matches, the result is the last three characters of the first matching station row's id |
| `ResolverProperties.FuzzyHitResolvesInOneStep` | wmata2/utilities.py:165-173 | on a miss with a non-empty candidate, the recursive call exact-matches the candidate and returns the code of the first station row with that name |
| `ResolverProperties.IndexErrorExactlyOnEmptyCandidates` | wmata2/utilities.py:165-167 | `IndexError` escapes if and only if the file exists, no station row matches, and the matcher returns nothing |
| `ResolverProperties.NoneExactlyOnEmptyStringCandidate` | wmata2/utilities.py:168-176 | `None` is returned if and only if the file exists, no station row matches, and the candidate is the empty string |
| `ResolverProperties.StationsIsIdempotent` | wmata2/utilities.py:158 | filtering the station rows a second time changes nothing |
| `ResolverProperties.OnlyStationRowsMatter` | wmata2/utilities.py:156-158 | platform and entrance rows never change the answer: the table and its station rows alone give the same result |
| `ResolverProperties.FirstRowWithCodeWins` | wmata2/utilities.py:199-201 | the first row in file order with the code decides the name; later rows with the same code are shadowed |
| `ResolverProperties.StationCodeIsBothSuffixes` | wmata2/utilities.py:163 | when station ids are `"STN_"` plus three characters, `[-3:]` of a station id equals `[4:]` of it, so code → name accepts that row for that code |
| `ResolverProperties.CodeRowIsStation` | wmata2/utilities.py:200 | every row code → name accepts (prefix `"STN_"`) is a station row for name → code (prefix `"STN"`) |
| `ResolverProperties.NameCodeNameRoundTrip` | wmata2/utilities.py:160-201 | in a `WellFormed` table, any spelling of a station's name resolves to a code, and that code resolves back to the station's name |
| `ResolverProperties.CodeNameCodeRoundTrip` | wmata2/utilities.py:160-201 | when station ids are `"STN_"` plus three characters and lowered station names are distinct, any code that resolves to a name comes back as the same code |
| `ResolverScenarios.NameLookupIgnoresCase` | wmata2/utilities.py:160-163 | `"METRO CTR"` finds the row named `"Metro Ctr"` |
| `ResolverScenarios.CodeLookupRespectsCase` | wmata2/utilities.py:200-202 | `"A01"` finds its row; `"a01"` raises `ValueError` |
| `ResolverScenarios.UnknownNameRaisesIndexError` | wmata2/utilities.py:165-167 | a name with no candidate raises `IndexError` rather than returning `None` |
| `ResolverScenarios.MisspeltNameResolvesThroughCandidate` | wmata2/utilities.py:165-173 | a misspelt name resolves to the code of the matcher's candidate |
| `ResolverScenarios.PrefixesDiffer` | wmata2/utilities.py:158 | an id `"STNXA01"` gives code `"A01"` from name → code, but code → name finds no row for `"A01"` |
| `ResolverScenarios.LongIdBreaksRoundTrip` | wmata2/utilities.py:163 | an id `"STN_A01_C01"` gives code `"C01"`, which code → name cannot find |
| `ResolverScenarios.DuplicateIdBreaksRoundTrip` | wmata2/utilities.py:199-201 | two station rows with one id: the second row's name resolves to a code whose name is the first row's |

## Left out

- `get_gtfs_rt_data` and `get_json_data` (both `utilities.py` files), the endpoint wrappers, `rebuild_static_data` and `WMATA.get_next_departures` are not modelled. They are HTTP requests, protobuf and JSON decoding, file and archive handling, and wall-clock arithmetic.
- `difflib`'s similarity ratio and its 0.2 cutoff are floating point. The matcher is a parameter constrained only by `IsCloseMatcher`.
- `str.lower` is modelled as ASCII lowercasing. Python lowercases all of Unicode.
- CSV parsing and UTF-8 decoding are not modelled. The table arrives as parsed rows with both columns present. Both directions get the same parsed table. The source opens the file with `newline=""` for name → code (wmata2/utilities.py:156) and with default newline handling for code → name (wmata2/utilities.py:197), so a quoted `stop_name` that contains `\r\n` can read differently in the two directions.
- The file check and the file read are not modelled as I/O. The recursive call in `get_station_code` re-reads the file; the model gives it the same table and the same existence flag.
- The log messages ("did you mean …", "could not find station") are not modelled.
- `temp_test.py` and `temp_test_WMATA.py` are scripts that call the live API, and are not modelled.
