/**
 * The older, name-keyed revision of the assignment engine (logic.py; main.py
 * repeats the same two functions with other log messages): the validator
 * looks only at the last two entries of a giver's list and does not check for
 * self-pairs, the generator skips any draw with a self-pair itself, and after
 * 100 rejected draws it returns an empty dict instead of raising.
 */
module LegacyLogic {
  import opened Wrappers
  import opened Dicts
  import opened Window
  import opened Permutations
  import opened Search

  /** `range(100)`: number of shuffles before the generator gives up. */
  const MaxAttempts: nat := 100

  /** `past_receiver`: giver name -> names of past recipients, in list order. */
  type History = Dict<string, seq<string>>

  /** giver name -> recipient name. */
  type Assignment = Dict<string, string>

  /** `past_receiver.get(giver, [])`. */
  function ListOf(past: History, giver: string): seq<string> {
    GetOr(past, giver, [])
  }

  /** The one rule the validator applies: the recipient is outside the giver's two-entry window. */
  predicate PairAllowed(giver: string, recipient: string, past: History) {
    recipient !in Recent(ListOf(past, giver))
  }

  /** `is_valid_pairing`: walks the items in order and stops at the first bad pair. */
  function IsValidPairing(assignments: Assignment, past: History): (valid: bool)
    ensures valid <==>
      forall i :: 0 <= i < |assignments| ==> PairAllowed(assignments[i].0, assignments[i].1, past)
  {
    if |assignments| == 0 then true
    else
      assert forall i :: 1 <= i < |assignments| ==> assignments[i] == assignments[1..][i - 1];
      var giver := assignments[0].0;
      var recipient := assignments[0].1;
      if !PairAllowed(giver, recipient, past) then false
      else IsValidPairing(assignments[1..], past)
  }

  /** The validator alone accepts a self-pair unless the giver's own window names the giver. */
  lemma ValidatorIgnoresSelfPairs(giver: string, past: History)
    ensures IsValidPairing([(giver, giver)], past) <==> giver !in Recent(ListOf(past, giver))
  {
  }

  /** A recipient found among the last two entries of its giver's list invalidates the pairing. */
  lemma RecentRecipientRejected(assignments: Assignment, past: History, i: nat, k: nat)
    requires i < |assignments|
    requires var h := ListOf(past, assignments[i].0);
      k < |h| && |h| - Window.Size <= k && h[k] == assignments[i].1
    ensures !IsValidPairing(assignments, past)
  {
    InRecentIff(ListOf(past, assignments[i].0), assignments[i].1);
  }

  /** A recipient that occurs only before the last two entries of the giver's list is allowed. */
  lemma OlderEntriesIgnored(giver: string, recipient: string, past: History)
    requires var h := ListOf(past, giver);
      forall k :: 0 <= k < |h| && h[k] == recipient ==> k < |h| - Window.Size
    ensures IsValidPairing([(giver, recipient)], past)
  {
    OlderEntryOutsideWindow(ListOf(past, giver), recipient);
  }

  /** Givers absent from `past` have an empty list, so nothing they are given is rejected. */
  lemma NoHistoryAlwaysValid(assignments: Assignment, past: History)
    requires forall i :: 0 <= i < |assignments| ==> Get(past, assignments[i].0).None?
    ensures IsValidPairing(assignments, past)
  {
  }

  /** `any(giver == recipient for giver, recipient in candidate_assignment.items())`. */
  predicate HasSelfPair(candidate: Assignment) {
    exists i :: 0 <= i < |candidate| && candidate[i].0 == candidate[i].1
  }

  /** `{giver: recipient for giver, recipient in zip(names, recipients)}`. */
  function CandidateOf(names: seq<string>, recipients: seq<string>): Assignment {
    FromPairs(Zip(names, recipients))
  }

  /** A shuffle is kept when its candidate has no self-pair and passes the validator. */
  predicate Accepts(names: seq<string>, recipients: seq<string>, past: History) {
    var candidate := CandidateOf(names, recipients);
    !HasSelfPair(candidate) && IsValidPairing(candidate, past)
  }

  /** With distinct names (the keys of a dict), the comprehension is the zip itself. */
  lemma CandidateOfDistinctNames(names: seq<string>, recipients: seq<string>)
    requires Distinct(names)
    ensures CandidateOf(names, recipients) == Zip(names, recipients)
  {
    var z := Zip(names, recipients);
    assert DistinctKeys(z);
    FromDistinctPairs(z);
  }

  /**
   * With distinct names, a shuffle is kept exactly when no position pairs a
   * name with itself and every position passes the window rule.
   */
  lemma AcceptsIffAllowedDerangement(names: seq<string>, recipients: seq<string>, past: History)
    requires Distinct(names)
    ensures Accepts(names, recipients, past) <==>
      forall i :: 0 <= i < |names| && i < |recipients| ==>
        names[i] != recipients[i] && PairAllowed(names[i], recipients[i], past)
  {
    CandidateOfDistinctNames(names, recipients);
    ZipSelfPairIff(names, recipients);
    ZipValidIff(names, recipients, past);
  }

  /** The zip of two lists pairs some name with itself exactly when the lists agree at some position. */
  lemma ZipSelfPairIff(names: seq<string>, recipients: seq<string>)
    ensures HasSelfPair(Zip(names, recipients)) <==>
      exists i :: 0 <= i < |names| && i < |recipients| && names[i] == recipients[i]
  {
    var c := Zip(names, recipients);
    if HasSelfPair(c) {
      var i :| 0 <= i < |c| && c[i].0 == c[i].1;
      assert names[i] == recipients[i];
    }
    if exists i :: 0 <= i < |names| && i < |recipients| && names[i] == recipients[i] {
      var i :| 0 <= i < |names| && i < |recipients| && names[i] == recipients[i];
      assert c[i].0 == c[i].1;
    }
  }

  /** The zip of two lists passes the validator exactly when every position passes the window rule. */
  lemma ZipValidIff(names: seq<string>, recipients: seq<string>, past: History)
    ensures IsValidPairing(Zip(names, recipients), past) <==>
      forall i :: 0 <= i < |names| && i < |recipients| ==> PairAllowed(names[i], recipients[i], past)
  {
    var c := Zip(names, recipients);
    forall i | 0 <= i < |names| && i < |recipients| ensures c[i] == (names[i], recipients[i]) {
    }
  }

  /**
   * `generate_secret_santa`, with `shuffles[i]` standing for the order of
   * `recipients` after the `random.shuffle` of attempt `i`.
   */
  function GenerateSecretSanta(past: History, shuffles: seq<seq<string>>): (r: Assignment)
    requires |shuffles| == MaxAttempts
    ensures r == [] || (exists i :: 0 <= i < MaxAttempts
                          && r == CandidateOf(Keys(past), shuffles[i])
                          && Accepts(Keys(past), shuffles[i], past)
                          && forall j :: 0 <= j < i ==> !Accepts(Keys(past), shuffles[j], past))
    ensures (forall i :: 0 <= i < MaxAttempts ==> !Accepts(Keys(past), shuffles[i], past)) ==> r == []
    ensures forall i ::
      (0 <= i < MaxAttempts && Accepts(Keys(past), shuffles[i], past)
       && forall j :: 0 <= j < i ==> !Accepts(Keys(past), shuffles[j], past))
      ==> r == CandidateOf(Keys(past), shuffles[i])
  {
    var names := Keys(past);
    FirstIndexIsUnique(shuffles, recipients => Accepts(names, recipients, past));
    match FirstIndex(shuffles, recipients => Accepts(names, recipients, past))
    case Some(i) => CandidateOf(names, shuffles[i])
    case None => []
  }

  /** Whatever the generator returns has no self-pair and passes the validator. */
  lemma GeneratedAssignmentIsValid(past: History, shuffles: seq<seq<string>>)
    requires |shuffles| == MaxAttempts
    ensures var r := GenerateSecretSanta(past, shuffles);
      !HasSelfPair(r) && IsValidPairing(r, past)
  {
  }

  /** Every giver -> recipient entry of a returned dict passes the window rule. */
  lemma ReturnedEntriesAllowed(past: History, shuffles: seq<seq<string>>)
    requires |shuffles| == MaxAttempts
    ensures var r := GenerateSecretSanta(past, shuffles);
      forall giver, recipient :: Get(r, giver) == Some(recipient) ==> PairAllowed(giver, recipient, past)
  {
    var r := GenerateSecretSanta(past, shuffles);
    forall giver, recipient | Get(r, giver) == Some(recipient) ensures PairAllowed(giver, recipient, past) {
      GetHasItem(r, giver, recipient);
    }
  }

  /**
   * When every shuffle is a permutation of the names, a non-empty result maps
   * the names one to one onto themselves.
   */
  lemma GeneratedAssignmentIsBijection(past: History, shuffles: seq<seq<string>>)
    requires |shuffles| == MaxAttempts
    requires DistinctKeys(past)
    requires forall i :: 0 <= i < |shuffles| ==> IsPermutationOf(shuffles[i], Keys(past))
    ensures var r := GenerateSecretSanta(past, shuffles);
      r != [] ==> IsBijectionOn(r, Keys(past))
  {
    var names := Keys(past);
    var r := GenerateSecretSanta(past, shuffles);
    if r != [] {
      var k := FirstIndex(shuffles, recipients => Accepts(names, recipients, past)).value;
      assert r == CandidateOf(names, shuffles[k]);
      assert Distinct(names);
      FromDistinctPairs(Zip(names, shuffles[k]));
      ZipPermutationIsBijection(names, shuffles[k]);
    }
  }

  /** With no participants the only candidate is the empty dict, which is returned. */
  lemma EmptyPoolGivesEmptyDict(shuffles: seq<seq<string>>)
    requires |shuffles| == MaxAttempts
    ensures GenerateSecretSanta([], shuffles) == []
  {
  }

  /** A single name can only be paired with itself, so every shuffle is skipped. */
  lemma SingleNameGivesEmptyDict(name: string, list: seq<string>, shuffles: seq<seq<string>>)
    requires |shuffles| == MaxAttempts
    requires forall i :: 0 <= i < |shuffles| ==> IsPermutationOf(shuffles[i], [name])
    ensures GenerateSecretSanta([(name, list)], shuffles) == []
  {
    var past := [(name, list)];
    assert Keys(past) == [name];
    forall i | 0 <= i < |shuffles| ensures !Accepts([name], shuffles[i], past) {
      SingletonShuffleHasSelfPair(name, shuffles[i]);
    }
  }

  lemma SingletonShuffleHasSelfPair(name: string, recipients: seq<string>)
    requires IsPermutationOf(recipients, [name])
    ensures HasSelfPair(CandidateOf([name], recipients))
  {
    assert |recipients| == |multiset(recipients)| == 1;
    assert recipients[0] in multiset(recipients);
    assert Zip([name], recipients) == [(name, name)];
    FromDistinctPairs([(name, name)]);
  }
}
