/** The rail station resolver of the WMATA client: station name to
    three-character station code and back, over the GTFS static stops table
    (`stops.txt`). Whether that file exists and its parsed rows are inputs;
    the fuzzy matcher `difflib.get_close_matches` is an oracle parameter. */
module Utilities {
  import opened Builtins

  /** One row of the stops table, restricted to the two columns the resolver reads. */
  datatype Row = Row(stopId: string, stopName: string)

  /** `get_station_code` keeps the rows whose `stop_id` starts with this. */
  const StationPrefix: string := "STN"

  /** `get_station_name` matches rows whose `stop_id` starts with this. */
  const CodePrefix: string := "STN_"

  /** The type of `difflib.get_close_matches(word, possibilities, n=1, cutoff=0.2)`. */
  type CloseMatcher = (string, seq<string>) -> seq<string>

  /** What the resolver relies on from the matcher: it returns at most one
      candidate (`n=1`), and only one drawn from the possibilities. */
  ghost predicate IsCloseMatcher(closeMatches: CloseMatcher)
  {
    forall word, possibilities ::
      |closeMatches(word, possibilities)| <= 1 &&
      forall c :: c in closeMatches(word, possibilities) ==> c in possibilities
  }

  /** A station-level row (not a platform or an entrance). */
  predicate IsStation(row: Row)
  {
    StartsWith(row.stopId, StationPrefix)
  }

  /** A station row whose lowered name is `key`: what the exact match looks for. */
  predicate NamedStation(row: Row, key: string)
  {
    IsStation(row) && Lower(row.stopName) == key
  }

  /** `i` is the first row, in table order, that `NamedStation` accepts. */
  ghost predicate FirstNamedStation(table: seq<Row>, key: string, i: int)
  {
    0 <= i < |table| && NamedStation(table[i], key) &&
    forall j :: 0 <= j < i ==> !NamedStation(table[j], key)
  }

  /** The row `get_station_name` accepts for `code`: a `"STN_"` id whose rest is `code`. */
  predicate HasCode(row: Row, code: string)
  {
    StartsWith(row.stopId, CodePrefix) && DropFirst(row.stopId, 4) == code
  }

  /** `i` is the first row, in table order, that `HasCode` accepts. */
  ghost predicate FirstWithCode(table: seq<Row>, code: string, i: int)
  {
    0 <= i < |table| && HasCode(table[i], code) &&
    forall j :: 0 <= j < i ==> !HasCode(table[j], code)
  }

  /** The station rows (`stop_id` starts with `"STN"`), in table order. */
  function Stations(table: seq<Row>): (r: seq<Row>)
    ensures forall row :: row in r <==> row in table && IsStation(row)
  {
    if table == [] then []
    else if IsStation(table[0]) then [table[0]] + Stations(table[1..])
    else Stations(table[1..])
  }

  /** The lowered `stop_name` of each station row, in order. */
  function StationNames(stations: seq<Row>): (r: seq<string>)
    ensures |r| == |stations|
    ensures forall i :: 0 <= i < |r| ==> r[i] == Lower(stations[i].stopName)
  {
    seq(|stations|, i requires 0 <= i < |stations| => Lower(stations[i].stopName))
  }

  /** Every entry of the name list is already lowered. */
  lemma StationNameIsLowered(stations: seq<Row>, name: string)
    requires name in StationNames(stations)
    ensures Lower(name) == name
  {
    var k :| 0 <= k < |stations| && StationNames(stations)[k] == name;
    LowerIsIdempotent(stations[k].stopName);
  }

  /** `get_station_code(station_name)`: `Ok(Some(code))` for a code, `Ok(None)`
      for the source's `return None`, `Raise(e)` for an exception that escapes.
      The measure shows that the recursion goes at most one level deep: the
      fallback candidate is an entry of the lowered name list, so the
      recursive call takes the exact-match branch. */
  function GetStationCode(fileExists: bool, table: seq<Row>, stationName: string,
                          closeMatches: CloseMatcher): (r: Result<Option<string>>)
    requires IsCloseMatcher(closeMatches)
    ensures !fileExists ==> r == Raise(FileNotFoundError)
    ensures r.Raise? ==> r.error != ValueError
    ensures r.Ok? && r.value.Some? ==>
      exists row :: row in table && IsStation(row) && r.value.value == LastN(row.stopId, 3)
    ensures r.Ok? && r.value.None? ==>
      exists row :: row in table && IsStation(row) && row.stopName == ""
    decreases if Lower(stationName) in StationNames(Stations(table)) then 0 else 1
  {
    if !fileExists then Raise(FileNotFoundError)
    else
      var stations := Stations(table);
      var stationNames := StationNames(stations);
      match IndexOf(stationNames, Lower(stationName))
      case Ok(index) => Ok(Some(LastN(stations[index].stopId, 3)))
      case Raise(_) =>
        // only ValueError can come out of `index`, and the source catches it
        match First(closeMatches(Lower(stationName), stationNames))
        case Raise(e) => Raise(e)
        case Ok(closestMatch) =>
          if closestMatch != "" then
            StationNameIsLowered(stations, closestMatch);
            GetStationCode(fileExists, table, closestMatch, closeMatches)
          else
            assert stations[IndexOf(stationNames, "").value].stopName == "";
            Ok(None)
  }

  /** The row-by-row scan of `get_station_name`, as a specification:
      the name on the first row in file order that carries `code`, or `ValueError`. */
  function NameForCode(table: seq<Row>, code: string): (r: Result<string>)
    ensures r.Ok? <==> exists i :: 0 <= i < |table| && HasCode(table[i], code)
    ensures r.Ok? ==> exists i :: FirstWithCode(table, code, i) && r.value == table[i].stopName
    ensures r.Raise? ==> r.error == ValueError
  {
    if table == [] then Raise(ValueError)
    else if HasCode(table[0], code) then
      assert FirstWithCode(table, code, 0);
      Ok(table[0].stopName)
    else
      var r := NameForCode(table[1..], code);
      if r.Ok? then
        assert exists i :: FirstWithCode(table, code, i) && r.value == table[i].stopName by {
          var i :| FirstWithCode(table[1..], code, i) && r.value == table[1..][i].stopName;
          assert FirstWithCode(table, code, i + 1);
        }
        r
      else
        assert forall i :: 1 <= i < |table| ==> table[i] == table[1..][i - 1];
        r
  }

  /** `get_station_name(station_code)`: fails with `FileNotFoundError` when the
      stops file is missing; otherwise scans the rows in file order and returns
      the name on the first one whose id is `"STN_"` followed by exactly the
      code (case-sensitive), and raises `ValueError` when none is. */
  method GetStationName(fileExists: bool, table: seq<Row>, stationCode: string)
    returns (r: Result<string>)
    ensures !fileExists ==> r == Raise(FileNotFoundError)
    ensures fileExists ==> r == NameForCode(table, stationCode)
    ensures fileExists && r.Ok? ==>
      exists i :: FirstWithCode(table, stationCode, i) && r.value == table[i].stopName
  {
    if !fileExists {
      return Raise(FileNotFoundError);
    }
    var i := 0;
    while i < |table|
      invariant 0 <= i <= |table|
      invariant forall j :: 0 <= j < i ==> !HasCode(table[j], stationCode)
    {
      var row := table[i];
      if HasCode(row, stationCode) {
        assert FirstWithCode(table, stationCode, i);
        return Ok(row.stopName);
      }
      i := i + 1;
    }
    return Raise(ValueError);
  }
}
