/** What the two resolver directions promise, stated over the stops table
    itself rather than over the intermediate `stations` and `station_names`
    lists: first match in table order, the fallback that resolves in one
    extra step, the error cases, and the name/code round trips. */
module ResolverProperties {
  import opened Builtins
  import opened Utilities

  // ---------------------------------------------------------------------------
  // From the filtered name list back to the table
  // ---------------------------------------------------------------------------

  /** The lowered name list holds `key` exactly when some station row is named `key`. */
  lemma NameListHoldsStationNames(table: seq<Row>, key: string)
    ensures key in StationNames(Stations(table)) <==>
            exists i :: 0 <= i < |table| && NamedStation(table[i], key)
  {
    var stations := Stations(table);
    var names := StationNames(stations);
    if key in names {
      var k :| 0 <= k < |names| && names[k] == key;
      assert stations[k] in stations;
      var i :| 0 <= i < |table| && table[i] == stations[k];
      assert NamedStation(table[i], key);
    }
    if i :| 0 <= i < |table| && NamedStation(table[i], key) {
      assert table[i] in stations;
      var k :| 0 <= k < |stations| && stations[k] == table[i];
      assert names[k] == key;
    }
  }

  /** Filtering keeps table order: the first station row named `key` sits in
      the filtered list ahead of every other station named `key`. */
  lemma {:induction false} FirstNamedStationIsFirstInList(table: seq<Row>, key: string, i: int)
    requires FirstNamedStation(table, key, i)
    ensures exists k :: 0 <= k < |Stations(table)| && Stations(table)[k] == table[i] &&
                        forall j :: 0 <= j < k ==> Lower(Stations(table)[j].stopName) != key
  {
    var rest := table[1..];
    if NamedStation(table[0], key) {
      assert i == 0;
      assert Stations(table)[0] == table[0];
    } else {
      assert i > 0;
      assert FirstNamedStation(rest, key, i - 1) by {
        forall j | 0 <= j < i - 1 ensures !NamedStation(rest[j], key) {
          assert rest[j] == table[j + 1];
        }
      }
      FirstNamedStationIsFirstInList(rest, key, i - 1);
      var k' :| 0 <= k' < |Stations(rest)| && Stations(rest)[k'] == rest[i - 1] &&
                forall j :: 0 <= j < k' ==> Lower(Stations(rest)[j].stopName) != key;
      if IsStation(table[0]) {
        assert Stations(table) == [table[0]] + Stations(rest);
        assert Stations(table)[k' + 1] == table[i];
        forall j | 0 <= j < k' + 1 ensures Lower(Stations(table)[j].stopName) != key {
          if j > 0 {
            assert Stations(table)[j] == Stations(rest)[j - 1];
          }
        }
      } else {
        assert Stations(table) == Stations(rest);
      }
    }
  }

  /** `list.index` on the lowered name list lands on the first station row named `key`. */
  lemma IndexFindsFirstNamedStation(table: seq<Row>, key: string, i: int)
    requires FirstNamedStation(table, key, i)
    ensures IndexOf(StationNames(Stations(table)), key).Ok?
    ensures Stations(table)[IndexOf(StationNames(Stations(table)), key).value] == table[i]
  {
    var stations := Stations(table);
    var names := StationNames(stations);
    FirstNamedStationIsFirstInList(table, key, i);
    var k :| 0 <= k < |stations| && stations[k] == table[i] &&
             forall j :: 0 <= j < k ==> Lower(stations[j].stopName) != key;
    assert names[k] == key;
    var r := IndexOf(names, key);
    assert names[r.value] == Lower(stations[r.value].stopName);
    assert r.value == k;
  }

  /** A key that some station row carries has a first such row. */
  lemma {:induction false} FirstNamedStationExists(table: seq<Row>, key: string)
    requires exists i :: 0 <= i < |table| && NamedStation(table[i], key)
    ensures exists i :: FirstNamedStation(table, key, i)
  {
    if NamedStation(table[0], key) {
      assert FirstNamedStation(table, key, 0);
    } else {
      var rest := table[1..];
      var i :| 0 <= i < |table| && NamedStation(table[i], key);
      assert NamedStation(rest[i - 1], key);
      FirstNamedStationExists(rest, key);
      var i' :| FirstNamedStation(rest, key, i');
      assert FirstNamedStation(table, key, i' + 1) by {
        forall j | 0 <= j < i' + 1 ensures !NamedStation(table[j], key) {
          if j > 0 {
            assert table[j] == rest[j - 1];
          }
        }
      }
    }
  }

  // ---------------------------------------------------------------------------
  // Name -> code
  // ---------------------------------------------------------------------------

  /** Exact match: for any spelling whose lowercase form is `key`, the code is the
      last three characters of the id of the first station row, in table order,
      named `key`; no fallback is consulted. */
  lemma ExactMatchReturnsFirstStation(table: seq<Row>, stationName: string,
                                      closeMatches: CloseMatcher, i: int)
    requires IsCloseMatcher(closeMatches)
    requires FirstNamedStation(table, Lower(stationName), i)
    ensures GetStationCode(true, table, stationName, closeMatches) ==
            Ok(Some(LastN(table[i].stopId, 3)))
  {
    IndexFindsFirstNamedStation(table, Lower(stationName), i);
  }

  /** No station row named like the input: the matcher is consulted on the lowered
      input and the lowered name list. */
  ghost predicate Missed(table: seq<Row>, stationName: string)
  {
    forall i :: 0 <= i < |table| ==> !NamedStation(table[i], Lower(stationName))
  }

  /** What `get_close_matches` returns for the input. */
  ghost function Candidates(table: seq<Row>, stationName: string,
                            closeMatches: CloseMatcher): (r: seq<string>)
  {
    closeMatches(Lower(stationName), StationNames(Stations(table)))
  }

  /** Fuzzy hit: the candidate is one of the lowered station names, so the
      recursive call exact-matches it (the recursion is one level deep) and
      the result is the code of the first station row bearing that name. */
  lemma FuzzyHitResolvesInOneStep(table: seq<Row>, stationName: string,
                                  closeMatches: CloseMatcher, candidate: string)
    requires IsCloseMatcher(closeMatches)
    requires Missed(table, stationName)
    requires Candidates(table, stationName, closeMatches) == [candidate]
    requires candidate != ""
    ensures Lower(candidate) in StationNames(Stations(table))
    ensures GetStationCode(true, table, stationName, closeMatches) ==
            GetStationCode(true, table, candidate, closeMatches)
    ensures exists i :: (FirstNamedStation(table, candidate, i) &&
                         GetStationCode(true, table, stationName, closeMatches) ==
                         Ok(Some(LastN(table[i].stopId, 3))))
  {
    var names := StationNames(Stations(table));
    NameListHoldsStationNames(table, Lower(stationName));
    assert candidate in names;
    StationNameIsLowered(Stations(table), candidate);
    NameListHoldsStationNames(table, candidate);
    FirstNamedStationExists(table, candidate);
    var i :| FirstNamedStation(table, candidate, i);
    ExactMatchReturnsFirstStation(table, candidate, closeMatches, i);
  }

  /** The source's quirk, as written: when the matcher finds nothing, `[0]` on the
      empty list raises `IndexError`; this is the only way an `IndexError` escapes. */
  lemma IndexErrorExactlyOnEmptyCandidates(fileExists: bool, table: seq<Row>,
                                           stationName: string, closeMatches: CloseMatcher)
    requires IsCloseMatcher(closeMatches)
    ensures GetStationCode(fileExists, table, stationName, closeMatches) == Raise(IndexError) <==>
            fileExists && Missed(table, stationName) &&
            Candidates(table, stationName, closeMatches) == []
  {
    var key := Lower(stationName);
    NameListHoldsStationNames(table, key);
    if fileExists && !Missed(table, stationName) {
      var i :| 0 <= i < |table| && NamedStation(table[i], key);
      FirstNamedStationExists(table, key);
    }
    var cands := Candidates(table, stationName, closeMatches);
    if fileExists && Missed(table, stationName) && |cands| == 1 && cands[0] != "" {
      FuzzyHitResolvesInOneStep(table, stationName, closeMatches, cands[0]);
    }
  }

  /** `return None` is reached only when the matcher's candidate is the empty
      string, which needs a station row with an empty name. */
  lemma NoneExactlyOnEmptyStringCandidate(fileExists: bool, table: seq<Row>,
                                          stationName: string, closeMatches: CloseMatcher)
    requires IsCloseMatcher(closeMatches)
    ensures GetStationCode(fileExists, table, stationName, closeMatches) == Ok(None) <==>
            fileExists && Missed(table, stationName) &&
            Candidates(table, stationName, closeMatches) == [""]
  {
    var key := Lower(stationName);
    NameListHoldsStationNames(table, key);
    var cands := Candidates(table, stationName, closeMatches);
    if fileExists && Missed(table, stationName) && |cands| == 1 && cands[0] != "" {
      FuzzyHitResolvesInOneStep(table, stationName, closeMatches, cands[0]);
    }
  }

  /** Filtering an already filtered table changes nothing. */
  lemma {:induction false} StationsIsIdempotent(table: seq<Row>)
    ensures Stations(Stations(table)) == Stations(table)
  {
    if table != [] {
      StationsIsIdempotent(table[1..]);
      if IsStation(table[0]) {
        var s := [table[0]] + Stations(table[1..]);
        assert s[0] == table[0] && s[1..] == Stations(table[1..]);
      }
    }
  }

  /** Platform and entrance rows never influence name -> code: the answer over
      the table equals the answer over its station rows alone. */
  lemma OnlyStationRowsMatter(fileExists: bool, table: seq<Row>, stationName: string,
                              closeMatches: CloseMatcher)
    requires IsCloseMatcher(closeMatches)
    ensures GetStationCode(fileExists, table, stationName, closeMatches) ==
            GetStationCode(fileExists, Stations(table), stationName, closeMatches)
    decreases if Lower(stationName) in StationNames(Stations(table)) then 0 else 1
  {
    StationsIsIdempotent(table);
    if fileExists {
      var names := StationNames(Stations(table));
      if IndexOf(names, Lower(stationName)).Raise? {
        var cands := closeMatches(Lower(stationName), names);
        if |cands| == 1 && cands[0] != "" {
          StationNameIsLowered(Stations(table), cands[0]);
          OnlyStationRowsMatter(fileExists, table, cands[0], closeMatches);
        }
      }
    }
  }

  // ---------------------------------------------------------------------------
  // Code -> name
  // ---------------------------------------------------------------------------

  /** `get_station_name` answers for every `"STN_"` row: the first one in file
      order with a given code wins, rows later in the file are shadowed. */
  lemma FirstRowWithCodeWins(table: seq<Row>, code: string, i: int)
    requires FirstWithCode(table, code, i)
    ensures NameForCode(table, code) == Ok(table[i].stopName)
  {
    var r := NameForCode(table, code);
    var i' :| FirstWithCode(table, code, i') && r.value == table[i'].stopName;
    assert i' == i;
  }

  // ---------------------------------------------------------------------------
  // Round trips
  // ---------------------------------------------------------------------------

  /** Every station id is `"STN_"` followed by a three-character code. */
  ghost predicate StationIdsAreCodes(table: seq<Row>)
  {
    forall i :: 0 <= i < |table| && IsStation(table[i]) ==>
      StartsWith(table[i].stopId, CodePrefix) && |table[i].stopId| == |CodePrefix| + 3
  }

  /** No two station rows share a lowered name. */
  ghost predicate StationNamesDistinct(table: seq<Row>)
  {
    forall i, j :: 0 <= i < j < |table| && IsStation(table[i]) && IsStation(table[j]) ==>
      Lower(table[i].stopName) != Lower(table[j].stopName)
  }

  /** No two station rows share an id (GTFS makes `stop_id` unique in `stops.txt`). */
  ghost predicate StationIdsDistinct(table: seq<Row>)
  {
    forall i, j :: 0 <= i < j < |table| && IsStation(table[i]) && IsStation(table[j]) ==>
      table[i].stopId != table[j].stopId
  }

  /** The table name -> code -> name is proved on. Code -> name -> code needs
      only the first two clauses. */
  ghost predicate WellFormed(table: seq<Row>)
  {
    StationIdsAreCodes(table) && StationNamesDistinct(table) && StationIdsDistinct(table)
  }

  /** When station ids are codes, the code of a station row is both `[-3:]` and `[4:]` of its id. */
  lemma StationCodeIsBothSuffixes(table: seq<Row>, i: int)
    requires StationIdsAreCodes(table)
    requires 0 <= i < |table| && IsStation(table[i])
    ensures HasCode(table[i], LastN(table[i].stopId, 3))
  {
    var id := table[i].stopId;
    assert LastN(id, 3) == id[4..];
  }

  /** `"STN_"` rows are station rows. */
  lemma CodeRowIsStation(row: Row, code: string)
    requires HasCode(row, code)
    ensures IsStation(row)
  {
    assert row.stopId[..3] == row.stopId[..4][..3];
  }

  /** With distinct station names, a station row is the only one named like it. */
  lemma OnlyStationNamed(table: seq<Row>, i: int)
    requires StationNamesDistinct(table)
    requires 0 <= i < |table| && IsStation(table[i])
    ensures FirstNamedStation(table, Lower(table[i].stopName), i)
  {
  }

  /** Name -> code -> name: resolving any spelling of a station's name gives a
      code that resolves back to that station's name. */
  lemma NameCodeNameRoundTrip(table: seq<Row>, closeMatches: CloseMatcher,
                              i: int, stationName: string)
    requires IsCloseMatcher(closeMatches)
    requires WellFormed(table)
    requires 0 <= i < |table| && IsStation(table[i])
    requires Lower(stationName) == Lower(table[i].stopName)
    ensures var r := GetStationCode(true, table, stationName, closeMatches);
            r.Ok? && r.value.Some? && NameForCode(table, r.value.value) == Ok(table[i].stopName)
  {
    var code := LastN(table[i].stopId, 3);
    OnlyStationNamed(table, i);
    ExactMatchReturnsFirstStation(table, stationName, closeMatches, i);
    StationCodeIsBothSuffixes(table, i);
    var r := NameForCode(table, code);
    var j :| FirstWithCode(table, code, j) && r.value == table[j].stopName;
    assert j == i by {
      CodeRowIsStation(table[j], code);
      var a, b := table[i].stopId, table[j].stopId;
      assert a == a[..4] + a[4..] && b == b[..4] + b[4..];
      assert a == b;
    }
  }

  /** Code -> name -> code: any code the table answers for resolves to a name
      whose code is that code again. */
  lemma CodeNameCodeRoundTrip(table: seq<Row>, closeMatches: CloseMatcher, code: string)
    requires IsCloseMatcher(closeMatches)
    requires StationIdsAreCodes(table) && StationNamesDistinct(table)
    requires NameForCode(table, code).Ok?
    ensures GetStationCode(true, table, NameForCode(table, code).value, closeMatches) ==
            Ok(Some(code))
  {
    var name := NameForCode(table, code).value;
    var j :| FirstWithCode(table, code, j) && name == table[j].stopName;
    CodeRowIsStation(table[j], code);
    assert StartsWith(table[j].stopId, CodePrefix) && |table[j].stopId| == 7;
    OnlyStationNamed(table, j);
    ExactMatchReturnsFirstStation(table, name, closeMatches, j);
    var id := table[j].stopId;
    assert LastN(id, 3) == id[4..];
  }
}
