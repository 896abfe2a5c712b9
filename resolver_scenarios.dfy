/** Small concrete tables on which the resolver's behaviour can be read off:
    case-insensitive names, case-sensitive codes, the `IndexError` on a fuzzy
    miss, and tables on which the round trips fail because an assumption of
    `WellFormed` is missing. */
module ResolverScenarios {
  import opened Builtins
  import opened Utilities
  import opened ResolverProperties

  /** A matcher that never finds a candidate (every similarity below the cutoff). */
  function NoCandidate(): (r: CloseMatcher)
  {
    (word: string, possibilities: seq<string>) => []
  }

  /** A matcher that always proposes the first possibility, when there is one. */
  function FirstPossibility(): (r: CloseMatcher)
  {
    (word: string, possibilities: seq<string>) => if possibilities == [] then [] else [possibilities[0]]
  }

  lemma NoCandidateIsCloseMatcher()
    ensures IsCloseMatcher(NoCandidate())
  {
  }

  lemma FirstPossibilityIsCloseMatcher()
    ensures IsCloseMatcher(FirstPossibility())
  {
  }

  const MetroCenter: Row := Row("STN_A01", "Metro Ctr")

  /** Name lookup ignores letter case. */
  lemma NameLookupIgnoresCase()
    ensures IsCloseMatcher(NoCandidate())
    ensures GetStationCode(true, [MetroCenter], "METRO CTR", NoCandidate()) == Ok(Some("A01"))
  {
    NoCandidateIsCloseMatcher();
    assert Lower("METRO CTR") == Lower("Metro Ctr") == "metro ctr";
    ExactMatchReturnsFirstStation([MetroCenter], "METRO CTR", NoCandidate(), 0);
  }

  /** Code lookup does not: `"a01"` is not `"A01"`. */
  lemma CodeLookupRespectsCase()
    ensures NameForCode([MetroCenter], "A01") == Ok("Metro Ctr")
    ensures NameForCode([MetroCenter], "a01") == Raise(ValueError)
  {
    assert HasCode(MetroCenter, "A01");
    assert !HasCode(MetroCenter, "a01") by {
      assert DropFirst(MetroCenter.stopId, 4) == "A01";
    }
  }

  /** An unknown name with no close candidate raises `IndexError` instead of returning `None`. */
  lemma UnknownNameRaisesIndexError()
    ensures IsCloseMatcher(NoCandidate())
    ensures GetStationCode(true, [MetroCenter], "Xyz", NoCandidate()) == Raise(IndexError)
  {
    NoCandidateIsCloseMatcher();
    IndexErrorExactlyOnEmptyCandidates(true, [MetroCenter], "Xyz", NoCandidate());
    assert Lower("Xyz") != "metro ctr";
  }

  /** A misspelt name resolves through the matcher's candidate. */
  lemma MisspeltNameResolvesThroughCandidate()
    ensures IsCloseMatcher(FirstPossibility())
    ensures GetStationCode(true, [MetroCenter], "Metro", FirstPossibility()) == Ok(Some("A01"))
  {
    FirstPossibilityIsCloseMatcher();
    assert Lower("Metro") != "metro ctr";
    assert Lower("Metro Ctr") == "metro ctr";
    assert StationNames(Stations([MetroCenter])) == ["metro ctr"];
    FuzzyHitResolvesInOneStep([MetroCenter], "Metro", FirstPossibility(), "metro ctr");
    assert FirstNamedStation([MetroCenter], "metro ctr", 0);
  }

  /** The two directions use different prefixes: an id `"STNXA01"` is a station
      for name -> code, with code `"A01"`, but no row for code -> name. */
  lemma PrefixesDiffer()
    ensures IsCloseMatcher(NoCandidate())
    ensures GetStationCode(true, [Row("STNXA01", "Ab")], "Ab", NoCandidate()) == Ok(Some("A01"))
    ensures NameForCode([Row("STNXA01", "Ab")], "A01") == Raise(ValueError)
  {
    NoCandidateIsCloseMatcher();
    var row := Row("STNXA01", "Ab");
    assert IsStation(row) by {
      assert row.stopId[..3] == "STN";
    }
    assert !StartsWith(row.stopId, CodePrefix) by {
      assert row.stopId[..4][3] == 'X';
    }
    assert FirstNamedStation([row], Lower("Ab"), 0);
    ExactMatchReturnsFirstStation([row], "Ab", NoCandidate(), 0);
    assert LastN(row.stopId, 3) == "A01";
  }

  /** The two directions take different suffixes (`[-3:]` and `[4:]`): an id
      longer than seven characters gives a code that code -> name cannot find. */
  lemma LongIdBreaksRoundTrip()
    ensures IsCloseMatcher(NoCandidate())
    ensures GetStationCode(true, [Row("STN_A01_C01", "Ab")], "Ab", NoCandidate()) == Ok(Some("C01"))
    ensures NameForCode([Row("STN_A01_C01", "Ab")], "C01") == Raise(ValueError)
  {
    NoCandidateIsCloseMatcher();
    var row := Row("STN_A01_C01", "Ab");
    assert IsStation(row) by {
      assert row.stopId[..3] == "STN";
    }
    assert FirstNamedStation([row], Lower("Ab"), 0);
    ExactMatchReturnsFirstStation([row], "Ab", NoCandidate(), 0);
    assert LastN(row.stopId, 3) == row.stopId[8..] == "C01";
    assert !HasCode(row, "C01") by {
      assert |DropFirst(row.stopId, 4)| == 7;
    }
  }

  /** Two station rows sharing an id: the second one's name resolves to a code
      whose name is the first one's. */
  lemma DuplicateIdBreaksRoundTrip()
    ensures IsCloseMatcher(NoCandidate())
    ensures GetStationCode(true, [Row("STN_A01", "Ab"), Row("STN_A01", "Cd")], "Cd", NoCandidate()) ==
            Ok(Some("A01"))
    ensures NameForCode([Row("STN_A01", "Ab"), Row("STN_A01", "Cd")], "A01") == Ok("Ab")
  {
    NoCandidateIsCloseMatcher();
    var t := [Row("STN_A01", "Ab"), Row("STN_A01", "Cd")];
    assert Lower("Ab") != Lower("Cd") by {
      assert Lower("Ab")[0] == 'a';
    }
    assert IsStation(t[1]) by {
      assert t[1].stopId[..3] == "STN";
    }
    assert FirstNamedStation(t, Lower("Cd"), 1);
    ExactMatchReturnsFirstStation(t, "Cd", NoCandidate(), 1);
    assert LastN(t[1].stopId, 3) == "A01";
    assert HasCode(t[0], "A01") by {
      assert DropFirst(t[0].stopId, 4) == "A01";
    }
  }
}
