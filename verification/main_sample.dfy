/**
 * The sample data of the standalone script (main.py) and what the name-keyed
 * generator can and cannot return for it.
 */
module MainSample {
  import opened Wrappers
  import opened Dicts
  import opened Window
  import opened Permutations
  import opened LegacyLogic

  /** `past_year_assignments`: each name's past recipients, in list order. */
  const PastYearAssignments: History := [
    ("Alex", ["Babsi", "Kathi", "Kathi"]),
    ("Magda", ["Martin", "Alex", "Martin"]),
    ("Kathi", ["Alex", "Martin", "Babsi"]),
    ("Steffi", ["Magda", "Babsi", "Alex"]),
    ("Martin", ["Kathi", "Magda", "Magda"]),
    ("Babsi", ["Steffi", "Steffi", "Steffi"])
  ]

  const Names: seq<string> := ["Alex", "Magda", "Kathi", "Steffi", "Martin", "Babsi"]

  /** The sample is a well-formed dict whose keys, in order, are `Names`. */
  lemma SampleIsDict()
    ensures Keys(PastYearAssignments) == Names
    ensures DistinctKeys(PastYearAssignments)
  {
    var p := PastYearAssignments;
    var ks := Keys(p);
    assert ks[0] == "Alex" && ks[1] == "Magda" && ks[2] == "Kathi";
    assert ks[3] == "Steffi" && ks[4] == "Martin" && ks[5] == "Babsi";
    assert ks == Names;
    forall i, j | 0 <= i < j < |p| ensures p[i].0 != p[j].0 {
      assert p[i].0 == Names[i] && p[j].0 == Names[j];
      assert Names[i][0] != Names[j][0] || Names[i][2] != Names[j][2];
    }
  }

  /** The two-entry window of every sample giver. */
  lemma SampleWindows()
    ensures Recent(ListOf(PastYearAssignments, "Alex")) == ["Kathi", "Kathi"]
    ensures Recent(ListOf(PastYearAssignments, "Magda")) == ["Alex", "Martin"]
    ensures Recent(ListOf(PastYearAssignments, "Kathi")) == ["Martin", "Babsi"]
    ensures Recent(ListOf(PastYearAssignments, "Steffi")) == ["Babsi", "Alex"]
    ensures Recent(ListOf(PastYearAssignments, "Martin")) == ["Magda", "Magda"]
    ensures Recent(ListOf(PastYearAssignments, "Babsi")) == ["Steffi", "Steffi"]
  {
    SampleIsDict();
    var p := PastYearAssignments;
    GetFindsItem(p, 0);
    GetFindsItem(p, 1);
    GetFindsItem(p, 2);
    GetFindsItem(p, 3);
    GetFindsItem(p, 4);
    GetFindsItem(p, 5);
  }

  /** Babsi's last two recipients were Steffi, so no result gives Babsi to Steffi again. */
  lemma BabsiNeverDrawsSteffi(shuffles: seq<seq<string>>)
    requires |shuffles| == LegacyLogic.MaxAttempts
    ensures Get(GenerateSecretSanta(PastYearAssignments, shuffles), "Babsi") != Some("Steffi")
  {
    var r := GenerateSecretSanta(PastYearAssignments, shuffles);
    SampleWindows();
    assert !PairAllowed("Babsi", "Steffi", PastYearAssignments);
    ReturnedEntriesAllowed(PastYearAssignments, shuffles);
  }

  /** Alex's last two recipients were Kathi, so no result gives Alex to Kathi. */
  lemma AlexNeverDrawsKathi(shuffles: seq<seq<string>>)
    requires |shuffles| == LegacyLogic.MaxAttempts
    ensures Get(GenerateSecretSanta(PastYearAssignments, shuffles), "Alex") != Some("Kathi")
  {
    SampleWindows();
    assert !PairAllowed("Alex", "Kathi", PastYearAssignments);
    ReturnedEntriesAllowed(PastYearAssignments, shuffles);
  }

  /** A derangement of the sample that respects every two-entry window. */
  const GoodShuffle: seq<string> := ["Babsi", "Kathi", "Steffi", "Martin", "Alex", "Magda"]

  const GoodAssignment: Assignment := [
    ("Alex", "Babsi"), ("Magda", "Kathi"), ("Kathi", "Steffi"),
    ("Steffi", "Martin"), ("Martin", "Alex"), ("Babsi", "Magda")
  ]

  lemma GoodAssignmentIsCandidate()
    ensures CandidateOf(Names, GoodShuffle) == GoodAssignment
  {
    assert Zip(Names, GoodShuffle) == GoodAssignment;
    assert Keys(GoodAssignment) == Names;
    SampleIsDict();
    FromDistinctPairs(GoodAssignment);
  }

  lemma GoodAssignmentDeranged()
    ensures !HasSelfPair(GoodAssignment)
  {
    var z := GoodAssignment;
    assert forall i :: 0 <= i < |z| ==> z[i].0 != z[i].1;
  }

  lemma GoodAssignmentValid()
    ensures IsValidPairing(GoodAssignment, PastYearAssignments)
  {
    SampleWindows();
    GoodAssignmentValidUnder(PastYearAssignments);
  }

  /** Every pair of `GoodAssignment` lies outside its giver's sample window. */
  lemma GoodPairsAllowed(past: History)
    requires Recent(ListOf(past, "Alex")) == ["Kathi", "Kathi"]
    requires Recent(ListOf(past, "Magda")) == ["Alex", "Martin"]
    requires Recent(ListOf(past, "Kathi")) == ["Martin", "Babsi"]
    requires Recent(ListOf(past, "Steffi")) == ["Babsi", "Alex"]
    requires Recent(ListOf(past, "Martin")) == ["Magda", "Magda"]
    requires Recent(ListOf(past, "Babsi")) == ["Steffi", "Steffi"]
    ensures PairAllowed("Alex", "Babsi", past) && PairAllowed("Magda", "Kathi", past)
    ensures PairAllowed("Kathi", "Steffi", past) && PairAllowed("Steffi", "Martin", past)
    ensures PairAllowed("Martin", "Alex", past) && PairAllowed("Babsi", "Magda", past)
  {
    assert "Babsi"[0] != "Kathi"[0];
    assert "Kathi"[0] != "Alex"[0] && "Kathi"[0] != "Martin"[0];
    assert "Steffi"[0] != "Martin"[0] && "Steffi"[0] != "Babsi"[0];
    assert "Martin"[0] != "Babsi"[0] && "Martin"[0] != "Alex"[0];
    assert "Alex"[0] != "Magda"[0];
    assert "Magda"[0] != "Steffi"[0];
  }

  /** Any history with the sample's windows accepts `GoodAssignment`. */
  lemma GoodAssignmentValidUnder(past: History)
    requires Recent(ListOf(past, "Alex")) == ["Kathi", "Kathi"]
    requires Recent(ListOf(past, "Magda")) == ["Alex", "Martin"]
    requires Recent(ListOf(past, "Kathi")) == ["Martin", "Babsi"]
    requires Recent(ListOf(past, "Steffi")) == ["Babsi", "Alex"]
    requires Recent(ListOf(past, "Martin")) == ["Magda", "Magda"]
    requires Recent(ListOf(past, "Babsi")) == ["Steffi", "Steffi"]
    ensures IsValidPairing(GoodAssignment, past)
  {
    GoodPairsAllowed(past);
    var z := GoodAssignment;
    forall i | 0 <= i < |z| ensures PairAllowed(z[i].0, z[i].1, past) {
      if i < 3 {
        assert z[i] == [("Alex", "Babsi"), ("Magda", "Kathi"), ("Kathi", "Steffi")][i];
      } else {
        assert z[i] == [("Steffi", "Martin"), ("Martin", "Alex"), ("Babsi", "Magda")][i - 3];
      }
    }
  }

  lemma GoodShuffleAccepted()
    ensures CandidateOf(Names, GoodShuffle) == GoodAssignment
    ensures Accepts(Names, GoodShuffle, PastYearAssignments)
  {
    GoodAssignmentIsCandidate();
    GoodAssignmentDeranged();
    GoodAssignmentValid();
  }

  /**
   * Babsi is only Alex's oldest recorded recipient, outside the window: when the
   * first shuffle is `GoodShuffle` the script keeps it and Alex draws Babsi.
   */
  lemma AlexMayDrawBabsi(shuffles: seq<seq<string>>)
    requires |shuffles| == LegacyLogic.MaxAttempts
    requires shuffles[0] == GoodShuffle
    ensures GenerateSecretSanta(PastYearAssignments, shuffles) == GoodAssignment
    ensures Get(GenerateSecretSanta(PastYearAssignments, shuffles), "Alex") == Some("Babsi")
  {
    SampleIsDict();
    GoodShuffleAccepted();
  }

  /** Any result on the sample is empty or a bijection of the six names. */
  lemma SampleResultIsBijection(shuffles: seq<seq<string>>)
    requires |shuffles| == LegacyLogic.MaxAttempts
    requires forall i :: 0 <= i < |shuffles| ==> IsPermutationOf(shuffles[i], Names)
    ensures var r := GenerateSecretSanta(PastYearAssignments, shuffles);
      r == [] || IsBijectionOn(r, Names)
  {
    SampleIsDict();
    GeneratedAssignmentIsBijection(PastYearAssignments, shuffles);
  }
}
