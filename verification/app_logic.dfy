/**
 * The current revision of the assignment engine, keyed by participant id
 * (app/logic.py): the validator rejects self-pairs and recipients whose name is
 * in the giver's history, the history is cut to the last two names when it is
 * fetched, and the generator raises after 1000 rejected draws.
 */
module AppLogic {
  import opened Wrappers
  import opened Dicts
  import opened Window
  import opened Permutations
  import opened Search

  /** One row of `get_all_participants()`: `{'id': ..., 'name': ...}`. */
  datatype Participant = Participant(id: int, name: string)

  /** One row of `get_assignments_for_giver(giver_id)`. */
  datatype AssignmentRecord = AssignmentRecord(receiverId: int, receiverName: string, year: int)

  /**
   * What `sql_statements` answers: the participant rows, and the assignment rows
   * recorded for each giver id, in the order the database returns them (the
   * query has no ORDER BY, so `[-2:]` keeps the last two rows returned, which
   * are the last two years only when rows come back by year). An id missing from
   * `assignmentsFor` is one for which `get_assignments_for_giver` gives `None`.
   */
  datatype Provider = Provider(participants: seq<Participant>, assignmentsFor: map<int, seq<AssignmentRecord>>)

  /** The two `ValueError`s the revision raises. */
  datatype Error =
    | NoParticipants   // "No participants found"
    | Exhausted        // "Unable to generate valid Secret Santa pairings after multiple attempts."

  /** Number of random draws before the generator gives up. */
  const MaxAttempts: nat := 1000

  /** giver id -> names of that giver's recent recipients. */
  type PastReceivers = map<int, seq<string>>

  /** A list of (giver id, recipient id) tuples, also the items of the dict validated. */
  type Pairing = seq<(int, int)>

  /** `[p['id'] for p in participants]`. */
  function ParticipantIds(ps: seq<Participant>): (ids: seq<int>)
    ensures |ids| == |ps|
    ensures forall i :: 0 <= i < |ps| ==> ids[i] == ps[i].id
  {
    if |ps| == 0 then [] else [ps[0].id] + ParticipantIds(ps[1..])
  }

  /** `next((p['name'] for p in participants if p['id'] == id), None)`. */
  function RecipientName(ps: seq<Participant>, id: int): (r: Option<string>)
    ensures r.None? <==> forall i :: 0 <= i < |ps| ==> ps[i].id != id
    ensures r.Some? ==>
      exists i :: 0 <= i < |ps| && ps[i] == Participant(id, r.value)
        && forall j :: 0 <= j < i ==> ps[j].id != id
  {
    if |ps| == 0 then None
    else if ps[0].id == id then Some(ps[0].name)
    else
      var r := RecipientName(ps[1..], id);
      assert forall i :: 1 <= i < |ps| ==> ps[i] == ps[1..][i - 1];
      assert r.Some? ==> (exists i :: 1 <= i < |ps| && ps[i] == Participant(id, r.value)
                                    && forall j :: 0 <= j < i ==> ps[j].id != id) by {
        if r.Some? {
          var k :| 0 <= k < |ps[1..]| && ps[1..][k] == Participant(id, r.value)
            && forall j :: 0 <= j < k ==> ps[1..][j].id != id;
          assert ps[k + 1] == Participant(id, r.value);
          assert forall j :: 1 <= j < k + 1 ==> ps[j] == ps[1..][j - 1];
        }
      }
      r
  }

  /** The set of ids the participant rows carry. */
  function IdSet(ps: seq<Participant>): set<int> {
    set i | 0 <= i < |ps| :: ps[i].id
  }

  /** `past_receivers.get(giver_id, [])`. */
  function HistoryOf(past: PastReceivers, giver: int): seq<string> {
    if giver in past then past[giver] else []
  }

  /**
   * The rule one (giver, recipient) pair must pass: no self-pair, and the
   * recipient's name, when the recipient is a known participant, is not in the
   * giver's history. An unknown recipient has name `None`, which no list of
   * names contains.
   */
  predicate PairAllowed(giver: int, recipient: int, past: PastReceivers, ps: seq<Participant>) {
    && giver != recipient
    && forall name :: RecipientName(ps, recipient) == Some(name) ==> name !in HistoryOf(past, giver)
  }

  /** `is_valid_pairing`: walks the items in order and stops at the first bad pair. */
  function IsValidPairing(assignments: Pairing, past: PastReceivers, ps: seq<Participant>): (valid: bool)
    ensures valid <==>
      forall i :: 0 <= i < |assignments| ==> PairAllowed(assignments[i].0, assignments[i].1, past, ps)
  {
    if |assignments| == 0 then true
    else
      var giverId := assignments[0].0;
      var recipientId := assignments[0].1;
      assert forall i :: 1 <= i < |assignments| ==> assignments[i] == assignments[1..][i - 1];
      if giverId == recipientId then false
      else
        var recipientName := RecipientName(ps, recipientId);
        if recipientName.Some? && recipientName.value in HistoryOf(past, giverId) then false
        else IsValidPairing(assignments[1..], past, ps)
  }

  /** A pairing that assigns some giver to themself is rejected. */
  lemma SelfPairRejected(assignments: Pairing, past: PastReceivers, ps: seq<Participant>, i: nat)
    requires i < |assignments| && assignments[i].0 == assignments[i].1
    ensures !IsValidPairing(assignments, past, ps)
  {
  }

  /** A pairing is rejected when a recipient's name is in its giver's history. */
  lemma RecentRecipientRejected(assignments: Pairing, past: PastReceivers, ps: seq<Participant>, i: nat, name: string)
    requires i < |assignments|
    requires RecipientName(ps, assignments[i].1) == Some(name)
    requires name in HistoryOf(past, assignments[i].0)
    ensures !IsValidPairing(assignments, past, ps)
  {
  }

  /** The empty assignment is valid. */
  lemma EmptyPairingValid(past: PastReceivers, ps: seq<Participant>)
    ensures IsValidPairing([], past, ps)
  {
  }

  /** A giver with no entry in `past` is held only to the self-pair check. */
  lemma GiverWithoutHistory(giver: int, recipient: int, past: PastReceivers, ps: seq<Participant>)
    requires giver !in past
    ensures IsValidPairing([(giver, recipient)], past, ps) <==> giver != recipient
  {
  }

  /** `[receiver['receiver_name'] for receiver in receivers]`. */
  function ReceiverNames(records: seq<AssignmentRecord>): (names: seq<string>)
    ensures |names| == |records|
    ensures forall i :: 0 <= i < |records| ==> names[i] == records[i].receiverName
  {
    if |records| == 0 then [] else [records[0].receiverName] + ReceiverNames(records[1..])
  }

  /** Every receiver name the provider has recorded for `giver`, in provider order. */
  function RecordedNames(provider: Provider, giver: int): seq<string> {
    if giver in provider.assignmentsFor then ReceiverNames(provider.assignmentsFor[giver]) else []
  }

  /**
   * `h` is what the fetch keeps for `giver`: the last two recorded names, in
   * their recorded order, and nothing for a giver with no records.
   */
  predicate KeepsLastTwo(provider: Provider, giver: int, h: seq<string>) {
    var names := RecordedNames(provider, giver);
    && |h| == (if |names| < Window.Size then |names| else Window.Size)
    && h == names[|names| - |h|..]
  }

  /** The loop of `fetch_past_receivers` over the participant rows. */
  function CollectPastReceivers(ps: seq<Participant>, provider: Provider): (past: PastReceivers)
    decreases |ps|
  {
    if |ps| == 0 then map[]
    else CollectPastReceivers(ps[..|ps| - 1], provider)[ps[|ps| - 1].id := FetchedEntry(provider, ps[|ps| - 1].id)]
  }

  /**
   * The history one loop iteration stores for `giver`: the last two recorded
   * names, or an empty list when the provider has no records.
   */
  function FetchedEntry(provider: Provider, giver: int): (h: seq<string>)
    ensures KeepsLastTwo(provider, giver, h)
  {
    if giver in provider.assignmentsFor then Recent(ReceiverNames(provider.assignmentsFor[giver])) else []
  }

  /** The ids of a row list are those of all rows but the last, plus the last one's. */
  lemma IdSetOfSnoc(ps: seq<Participant>)
    requires |ps| > 0
    ensures IdSet(ps) == IdSet(ps[..|ps| - 1]) + {ps[|ps| - 1].id}
  {
    var init := ps[..|ps| - 1];
    assert forall i :: 0 <= i < |init| ==> init[i] == ps[i];
  }

  /** The loop stores an entry for exactly the ids of the rows. */
  lemma {:induction false} CollectedKeys(ps: seq<Participant>, provider: Provider)
    ensures CollectPastReceivers(ps, provider).Keys == IdSet(ps)
    decreases |ps|
  {
    if |ps| > 0 {
      CollectedKeys(ps[..|ps| - 1], provider);
      IdSetOfSnoc(ps);
    }
  }

  /** Whatever row stored it last, the entry of an id is that id's fetched history. */
  lemma {:induction false} CollectedEntry(ps: seq<Participant>, provider: Provider, id: int)
    requires id in CollectPastReceivers(ps, provider)
    ensures CollectPastReceivers(ps, provider)[id] == FetchedEntry(provider, id)
    decreases |ps|
  {
    if |ps| > 0 && ps[|ps| - 1].id != id {
      CollectedEntry(ps[..|ps| - 1], provider, id);
    }
  }

  /** Every entry the loop stores keeps the last two recorded names of its id. */
  lemma CollectedEntriesKeepLastTwo(ps: seq<Participant>, provider: Provider)
    ensures var past := CollectPastReceivers(ps, provider);
      forall id :: id in past ==> KeepsLastTwo(provider, id, past[id])
  {
    var past := CollectPastReceivers(ps, provider);
    forall id | id in past ensures KeepsLastTwo(provider, id, past[id]) {
      CollectedEntry(ps, provider, id);
    }
  }

  /** `fetch_past_receivers`: raises on an empty participant list. */
  function FetchPastReceivers(provider: Provider): (r: Result<PastReceivers, Error>)
    ensures r.Failure? <==> |provider.participants| == 0
    ensures r.Failure? ==> r.error == NoParticipants
    ensures r.Success? ==> r.value == CollectPastReceivers(provider.participants, provider)
    ensures r.Success? ==>
      && r.value.Keys == IdSet(provider.participants)
      && forall id :: id in r.value ==> KeepsLastTwo(provider, id, r.value[id])
  {
    if |provider.participants| == 0 then Failure(NoParticipants)
    else
      CollectedKeys(provider.participants, provider);
      CollectedEntriesKeepLastTwo(provider.participants, provider);
      Success(CollectPastReceivers(provider.participants, provider))
  }

  /** A draw passes when the dict built from zipping it against the ids validates. */
  predicate Accepts(ids: seq<int>, draw: seq<int>, past: PastReceivers, ps: seq<Participant>) {
    IsValidPairing(FromPairs(Zip(ids, draw)), past, ps)
  }

  /**
   * The retry loop of `generate_secret_santa`: the zip of the first draw the
   * validator accepts, or the "multiple attempts" error when none is accepted.
   */
  function SelectDraw(ids: seq<int>, past: PastReceivers, ps: seq<Participant>, draws: seq<seq<int>>): (r: Result<Pairing, Error>)
    ensures r.Success? ==>
      exists i :: 0 <= i < |draws| && r.value == Zip(ids, draws[i])
        && Accepts(ids, draws[i], past, ps)
        && forall j :: 0 <= j < i ==> !Accepts(ids, draws[j], past, ps)
    ensures r.Failure? ==>
      && r.error == Exhausted
      && forall i :: 0 <= i < |draws| ==> !Accepts(ids, draws[i], past, ps)
  {
    match FirstIndex(draws, draw => Accepts(ids, draw, past, ps))
    case Some(i) => Success(Zip(ids, draws[i]))
    case None => Failure(Exhausted)
  }

  /**
   * `generate_secret_santa`, with `draws[i]` standing for what
   * `random.sample(participant_ids, len(participant_ids))` returns on attempt `i`.
   */
  function GenerateSecretSanta(ps: seq<Participant>, provider: Provider, draws: seq<seq<int>>): (r: Result<Pairing, Error>)
    requires |draws| == MaxAttempts
    ensures r == Failure(NoParticipants) <==> |provider.participants| == 0
    ensures r.Success? ==>
      var past := CollectPastReceivers(provider.participants, provider);
      exists i :: 0 <= i < MaxAttempts && r.value == Zip(ParticipantIds(ps), draws[i])
        && Accepts(ParticipantIds(ps), draws[i], past, ps)
        && forall j :: 0 <= j < i ==> !Accepts(ParticipantIds(ps), draws[j], past, ps)
    ensures r == Failure(Exhausted) ==>
      var past := CollectPastReceivers(provider.participants, provider);
      forall i :: 0 <= i < MaxAttempts ==> !Accepts(ParticipantIds(ps), draws[i], past, ps)
  {
    match FetchPastReceivers(provider)
    case Failure(e) => Failure(e)
    case Success(past) => SelectDraw(ParticipantIds(ps), past, ps, draws)
  }

  /**
   * When participant ids are unique and every draw is a permutation of them,
   * a returned pairing maps the participants one to one onto themselves.
   */
  lemma GeneratedPairingIsBijection(ps: seq<Participant>, provider: Provider, draws: seq<seq<int>>)
    requires |draws| == MaxAttempts
    requires Distinct(ParticipantIds(ps))
    requires forall i :: 0 <= i < |draws| ==> IsPermutationOf(draws[i], ParticipantIds(ps))
    ensures var r := GenerateSecretSanta(ps, provider, draws);
      r.Success? ==> IsBijectionOn(r.value, ParticipantIds(ps))
  {
    var r := GenerateSecretSanta(ps, provider, draws);
    if r.Success? {
      var ids := ParticipantIds(ps);
      var past := CollectPastReceivers(provider.participants, provider);
      var k := FirstIndex(draws, draw => Accepts(ids, draw, past, ps)).value;
      ZipPermutationIsBijection(ids, draws[k]);
    }
  }

  /** Unique ids make every zipped candidate its own dict. */
  lemma CandidateIsItsOwnDict(ids: seq<int>, draw: seq<int>)
    requires Distinct(ids)
    ensures FromPairs(Zip(ids, draw)) == Zip(ids, draw)
  {
    FromDistinctPairs(Zip(ids, draw));
  }

  /**
   * The fetched history of a listed giver is exactly the last two receiver
   * names the provider recorded for them.
   */
  lemma FetchedHistoryIsLastTwo(provider: Provider, giver: int)
    requires giver in IdSet(provider.participants)
    ensures HistoryOf(CollectPastReceivers(provider.participants, provider), giver)
         == Recent(RecordedNames(provider, giver))
  {
    CollectedKeys(provider.participants, provider);
    CollectedEntry(provider.participants, provider, giver);
  }

  /** The recipient was not among the last two receivers recorded for the giver. */
  predicate NotDrawnInLastTwo(provider: Provider, ps: seq<Participant>, giver: int, recipient: int) {
    forall name :: RecipientName(ps, recipient) == Some(name) ==> name !in Recent(RecordedNames(provider, giver))
  }

  /** An accepted candidate over unique ids satisfies both rules pair by pair. */
  lemma AcceptedCandidateRespectsRules(ids: seq<int>, draw: seq<int>, provider: Provider, ps: seq<Participant>)
    requires Distinct(ids)
    requires Accepts(ids, draw, CollectPastReceivers(provider.participants, provider), ps)
    ensures var c := Zip(ids, draw);
      forall i :: 0 <= i < |c| ==>
        && c[i].0 != c[i].1
        && (c[i].0 in IdSet(provider.participants) ==> NotDrawnInLastTwo(provider, ps, c[i].0, c[i].1))
  {
    var past := CollectPastReceivers(provider.participants, provider);
    var c := Zip(ids, draw);
    CandidateIsItsOwnDict(ids, draw);
    assert IsValidPairing(c, past, ps);
    forall i | 0 <= i < |c| && c[i].0 in IdSet(provider.participants)
      ensures NotDrawnInLastTwo(provider, ps, c[i].0, c[i].1)
    {
      assert PairAllowed(c[i].0, c[i].1, past, ps);
      FetchedHistoryIsLastTwo(provider, c[i].0);
    }
  }

  /**
   * End to end: with unique participant ids, no pair of a returned pairing is a
   * self-pair, and no recipient's name is among the last two names recorded
   * for a giver the provider lists.
   */
  lemma GeneratedPairingRespectsRules(ps: seq<Participant>, provider: Provider, draws: seq<seq<int>>)
    requires |draws| == MaxAttempts
    requires Distinct(ParticipantIds(ps))
    ensures var r := GenerateSecretSanta(ps, provider, draws);
      r.Success? ==> forall i :: 0 <= i < |r.value| ==>
        && r.value[i].0 != r.value[i].1
        && (r.value[i].0 in IdSet(provider.participants) ==>
              NotDrawnInLastTwo(provider, ps, r.value[i].0, r.value[i].1))
  {
    var r := GenerateSecretSanta(ps, provider, draws);
    if r.Success? {
      var ids := ParticipantIds(ps);
      var past := CollectPastReceivers(provider.participants, provider);
      var k := FirstIndex(draws, draw => Accepts(ids, draw, past, ps)).value;
      assert r.value == Zip(ids, draws[k]);
      AcceptedCandidateRespectsRules(ids, draws[k], provider, ps);
    }
  }

  /** A draw over a single participant can only pair that participant with themself. */
  lemma SingletonDrawRejected(ids: seq<int>, draw: seq<int>, past: PastReceivers, ps: seq<Participant>)
    requires |ids| == 1
    requires IsPermutationOf(draw, ids)
    ensures !Accepts(ids, draw, past, ps)
  {
    assert |draw| == |multiset(draw)| == |multiset(ids)| == 1;
    assert draw[0] in multiset(draw);
    assert Zip(ids, draw) == [(ids[0], ids[0])];
    CandidateIsItsOwnDict(ids, draw);
  }

  /** A single id has no permutation but itself. */
  lemma SingletonPermutations(ids: seq<int>)
    requires |ids| == 1
    ensures forall d :: IsPermutationOf(d, ids) ==> d == ids
  {
    forall d | IsPermutationOf(d, ids) ensures d == ids {
      assert |d| == |multiset(d)| == |multiset(ids)| == 1;
      assert d[0] in multiset(ids);
    }
  }

  /** With a single participant every draw is a self-pair, so the generator raises. */
  lemma SingleParticipantExhausts(ps: seq<Participant>, provider: Provider, draws: seq<seq<int>>)
    requires |draws| == MaxAttempts
    requires |ps| == 1
    requires |provider.participants| > 0
    requires forall i :: 0 <= i < |draws| ==> IsPermutationOf(draws[i], ParticipantIds(ps))
    ensures GenerateSecretSanta(ps, provider, draws) == Failure(Exhausted)
  {
    var ids := ParticipantIds(ps);
    var past := CollectPastReceivers(provider.participants, provider);
    SingletonPermutations(ids);
    SingletonDrawRejected(ids, ids, past, ps);
    assert forall i :: 0 <= i < |draws| ==> draws[i] == ids;
  }

  /** A first draw that the validator accepts is the pairing returned. */
  lemma AcceptedFirstDrawReturned(ps: seq<Participant>, provider: Provider, draws: seq<seq<int>>)
    requires |draws| == MaxAttempts
    requires |provider.participants| > 0
    requires Accepts(ParticipantIds(ps), draws[0], CollectPastReceivers(provider.participants, provider), ps)
    ensures GenerateSecretSanta(ps, provider, draws) == Success(Zip(ParticipantIds(ps), draws[0]))
  {
    var ids := ParticipantIds(ps);
    var past := CollectPastReceivers(provider.participants, provider);
    assert FetchPastReceivers(provider) == Success(past);
    assert FirstIndex(draws, draw => Accepts(ids, draw, past, ps)) == Some(0);
  }

  /** `dict([(1, 1), (2, 1), (1, 2)])` keeps the first position of key 1 and its last value. */
  lemma RepeatedKeyOverwritten()
    ensures FromPairs([(1, 1), (2, 1), (1, 2)]) == [(1, 2), (2, 1)]
  {
    var z := [(1, 1), (2, 1), (1, 2)];
    assert z[..2] == [(1, 1), (2, 1)];
    assert z[..2][..1] == [(1, 1)];
    assert [(1, 1)][..0] == [];
    assert FromPairs([(1, 1)]) == [(1, 1)];
    assert FromPairs(z[..2]) == [(1, 1), (2, 1)];
  }

  /** A giver with no recorded assignments has an empty fetched history. */
  lemma NoRecordsNoHistory(ps: seq<Participant>, provider: Provider, giver: int)
    requires provider.assignmentsFor == map[]
    ensures HistoryOf(CollectPastReceivers(ps, provider), giver) == []
  {
    var past := CollectPastReceivers(ps, provider);
    if giver in past {
      CollectedEntry(ps, provider, giver);
    }
  }

  /** Without recorded assignments, swapping ids 1 and 2 passes the validator. */
  lemma SwapAcceptedWithoutRecords(ps: seq<Participant>, provider: Provider)
    requires provider.assignmentsFor == map[]
    ensures IsValidPairing([(1, 2), (2, 1)], CollectPastReceivers(ps, provider), ps)
  {
    var past := CollectPastReceivers(ps, provider);
    NoRecordsNoHistory(ps, provider, 1);
    NoRecordsNoHistory(ps, provider, 2);
    assert PairAllowed(1, 2, past, ps);
    assert PairAllowed(2, 1, past, ps);
  }

  /**
   * Repeated ids: `dict(zip(...))` keeps one pair per id, so the validator can
   * accept a draw whose returned list still holds a self-pair. Participant ids
   * are database keys, so the caller never passes such a list.
   */
  lemma RepeatedIdsEscapeValidation(ps: seq<Participant>, provider: Provider, draws: seq<seq<int>>)
    requires |draws| == MaxAttempts
    requires ParticipantIds(ps) == [1, 2, 1]
    requires provider == Provider(ps, map[])
    requires draws[0] == [1, 1, 2]
    ensures IsPermutationOf(draws[0], ParticipantIds(ps))
    ensures GenerateSecretSanta(ps, provider, draws) == Success([(1, 1), (2, 1), (1, 2)])
  {
    var ids := ParticipantIds(ps);
    var z := Zip(ids, draws[0]);
    assert z[0] == (1, 1) && z[1] == (2, 1) && z[2] == (1, 2);
    assert z == [(1, 1), (2, 1), (1, 2)];
    RepeatedKeyOverwritten();
    SwapAcceptedWithoutRecords(ps, provider);
    assert Accepts(ids, draws[0], CollectPastReceivers(ps, provider), ps);
    assert |provider.participants| == 3;
    AcceptedFirstDrawReturned(ps, provider, draws);
  }
}
