# Secret Santa assignment engine, modelled in Dafny

This project models the assignment engine of the secret-santa repository. The engine assigns each participant one other participant to give a gift to. It draws random permutations of the participants and keeps the first one that passes a validator. The repository holds three revisions of the engine, and the model keeps them apart:

- **`AppLogic`** (app/logic.py) is the current revision. Participants are keyed by id.
  - `is_valid_pairing` rejects a self-pair. It also rejects a recipient whose *name* is in the giver's history list.
  - `fetch_past_receivers` cuts each history to the last two names when it is fetched. It raises `ValueError` when there are no participants.
  - `generate_secret_santa` makes up to 1000 draws. It raises `ValueError` when all of them are rejected.
- **`LegacyLogic`** (logic.py) is the older revision. Participants are keyed by name.
  - `is_valid_pairing` applies the two-entry window itself (`[-2:]`). It does not check for self-pairs.
  - `generate_secret_santa` skips a draw with a self-pair before it calls the validator. It makes 100 draws and returns `{}` when all of them are rejected.
  - main.py:25-46 and main.py:49-82 repeat logic.py:10-28 and logic.py:32-60 with different log messages. The same members model both files.
- **`MainSample`** holds the sample data at main.py:6-13 and states what the generator can and cannot return for it.

The three revisions differ in two rules, and the model keeps both differences visible:

- **The self-pair check.** It lives in `AppLogic.IsValidPairing`. In the legacy revision it lives in `LegacyLogic.Accepts`, and `LegacyLogic.ValidatorIgnoresSelfPairs` shows that the validator alone lets a self-pair through.
- **The two-year window.** `AppLogic.FetchedEntry` applies it when the history is fetched. `LegacyLogic.IsValidPairing` applies it when a pairing is validated.

Supporting modules:

- `Wrappers` defines `Option` and `Result`. They stand in for Python's `None` and for raised exceptions.
- `Dicts` models Python dicts whose iteration order matters. A dict is an insertion-ordered list of pairs. `FromPairs` is `dict(...)` or a dict comprehension, where a later pair overwrites an earlier one with the same key. `Zip` is `zip`.
- `Window` defines `Recent`, the slice `s[-2:]`.
- `Permutations` defines permutations, duplicate-free sequences and bijections of a pool onto itself.
- `Search` defines `FirstIndex`, the retry loop shared by both generators: it stops at the first accepted draw.

**Randomness.** Each generator takes its random draws as a parameter.
- For `AppLogic`, `draws[i]` is what `random.sample(participant_ids, len(participant_ids))` returns on attempt `i`.
- For `LegacyLogic`, `shuffles[i]` is the order of `recipients` after the `random.shuffle` of attempt `i`. The shuffle works in place, so each state is a permutation of the previous one. Any sequence of permutations of the names can therefore occur.

The properties then read "whatever comes back is the first accepted draw, and it is valid".

**Behaviour of the code worth knowing:**
- The current revision matches a recipient's *name* against a history of *names*. It does not match identifiers.
- A recipient id that is not among the participants has name `None`. No list of names contains `None`, so only the self-pair check applies to that recipient.
- Running out of attempts raises a plain `ValueError` (`AppLogic.Error.Exhausted`), which carries no pool size or attempt count.
- No error is raised for a pool of one. The generator simply exhausts its attempts (`AppLogic.SingleParticipantExhausts`, `LegacyLogic.SingleNameGivesEmptyDict`).
- The legacy revision returns `{}` for an empty pool as well as on exhaustion (`LegacyLogic.EmptyPoolGivesEmptyDict`). The caller cannot tell the two cases apart.

**Two observations.**
- On the sample data, Alex's last two recipients are Kathi and Kathi. Babsi is only Alex's oldest entry, so the generator may assign Alex to Babsi (`MainSample.AlexMayDrawBabsi`). It never assigns Alex to Kathi, or Babsi to Steffi.
- The current revision validates `dict(zip(ids, draw))` but returns the list `zip(ids, draw)`. With a repeated participant id the two differ. The returned list can then contain a self-pair that the validator never saw (`AppLogic.RepeatedIdsEscapeValidation`). Participant ids are database primary keys, so the caller cannot produce this input. The end-to-end lemmas therefore assume unique ids.

## Model

| member | source | states |
|---|---|---|
| AppLogic.ParticipantIds | app/logic.py:47 | the ids of the participant rows, one per row, in row order |
| AppLogic.RecipientName | app/logic.py:28 | the name of the first participant row carrying the id, and `None` exactly when no row carries it |
| AppLogic.IsValidPairing | app/logic.py:23-32 | the early-exit walk over the items returns true exactly when every pair is not a self-pair and its recipient's name is not in the giver's history |
| AppLogic.SelfPairRejected | app/logic.py:23-25 | any pairing that holds a self-pair is invalid |
| AppLogic.RecentRecipientRejected | app/logic.py:27-31 | a pairing is invalid when some recipient's name is in its giver's history list |
| AppLogic.EmptyPairingValid | app/logic.py:32 | the empty assignment is valid |
| AppLogic.GiverWithoutHistory | app/logic.py:30 | a giver missing from the history map is held only to the self-pair check |
| AppLogic.ReceiverNames | app/logic.py:93 | the receiver names of the records, one per record, in record order |
| AppLogic.FetchedEntry | app/logic.py:86-93 | the entry stored for one giver is the last two recorded receiver names in their recorded order, all of them when fewer than two, and empty when the provider has no records |
| AppLogic.CollectedKeys | app/logic.py:82-90 | the loop over the participant rows leaves exactly the participants' ids as keys |
| AppLogic.CollectedEntry | app/logic.py:84-94 | the value stored under an id is the entry the loop fetched for that id |
| AppLogic.CollectedEntriesKeepLastTwo | app/logic.py:84-96 | every value of the collected map is the last two recorded receiver names of its key |
| AppLogic.FetchPastReceivers | app/logic.py:76-96 | fails with "No participants found" exactly when the provider lists no participants; otherwise returns the per-participant two-name histories |
| AppLogic.FetchedHistoryIsLastTwo | app/logic.py:84-94 | for every listed participant, the fetched history equals the last two recorded receiver names |
| AppLogic.SelectDraw | app/logic.py:53-63 | a success is the zip of some draw the validator accepts with every earlier draw rejected; the "multiple attempts" error comes only when every draw is rejected |
| AppLogic.GenerateSecretSanta | app/logic.py:47-63 | fails exactly when there are no participants or all 1000 draws are rejected; a success is the zip of the first draw the validator accepts, after rejected draws only |
| AppLogic.CandidateIsItsOwnDict | app/logic.py:55-58 | with unique ids the dict the validator receives has the same items as the list that is returned |
| AppLogic.GeneratedPairingIsBijection | app/logic.py:54-60 | with unique ids and permutation draws, a returned pairing maps the participants one to one onto themselves |
| AppLogic.AcceptedCandidateRespectsRules | app/logic.py:53-60 | every pair of an accepted candidate is not a self-pair, and its recipient's name is outside the giver's last two recorded receivers |
| AppLogic.GeneratedPairingRespectsRules | app/logic.py:47-60 | every pair of a returned pairing is not a self-pair, and its recipient's name is not among the giver's last two recorded receivers |
| AppLogic.SingletonDrawRejected | app/logic.py:24-25 | a permutation of a single id is always rejected |
| AppLogic.SingleParticipantExhausts | app/logic.py:53-63 | with one participant the generator always raises after its attempts, never returns a pairing |
| AppLogic.AcceptedFirstDrawReturned | app/logic.py:53-60 | when the first draw is accepted, the generator returns its zip |
| AppLogic.SingletonPermutations | app/logic.py:54 | the only permutation of a single id is the id itself |
| AppLogic.NoRecordsNoHistory | app/logic.py:88-90 | with no recorded assignments, every giver's fetched history is empty |
| AppLogic.SwapAcceptedWithoutRecords | app/logic.py:23-32 | with no recorded assignments, ids 1 and 2 giving to each other is a valid pairing |
| AppLogic.RepeatedKeyOverwritten | app/logic.py:58 | an example of the overwrite rule: `dict([(1, 1), (2, 1), (1, 2)])` is `{1: 2, 2: 1}`, keeping key 1 at its first position with its last value |
| AppLogic.RepeatedIdsEscapeValidation | app/logic.py:54-60 | with a repeated id, the returned list can hold a self-pair although the validated dict has none |
| Search.FirstIndex | app/logic.py:53-60 | the index of the first accepted draw with all earlier draws rejected, or none exactly when every draw is rejected |
| Search.FirstIndexIsUnique | logic.py:47-58 | any accepted draw preceded only by rejected draws is the one the loop stops at |
| Window.Recent | logic.py:25 | `s[-2:]`: the suffix of `s` of length two, or all of `s` when shorter |
| Window.InRecentIff | logic.py:25 | an entry is in the window exactly when it occurs at one of the last two positions |
| Window.OlderEntryOutsideWindow | logic.py:25 | an entry occurring only before the last two positions is outside the window |
| Dicts.Keys | logic.py:43 | the keys of a dict, in insertion order |
| Dicts.Get | logic.py:25 | `d.get(k)` is absent exactly when no item has key `k` |
| Dicts.GetFindsItem | logic.py:25 | in a dict, looking up a stored key yields the value stored beside it |
| Dicts.GetHasItem | logic.py:25 | a value found under a key is one of the dict's items |
| Dicts.Put | logic.py:49 | after `d[k] = v`, `k` maps to `v`, other keys are unchanged, a present key keeps its position and an absent key is appended |
| Dicts.FromPairs | logic.py:49 | the dict built from pairs has distinct keys and contains every key of the pairs |
| Dicts.FromPairsKeepsLastValue | logic.py:49 | a key maps to a value in the built dict exactly when the last pair with that key carries that value |
| Dicts.LastPairWins | logic.py:49 | the last pair with a given key determines that key's value |
| Dicts.FoundValueIsLast | logic.py:49 | a value found in the built dict comes from the last pair with its key |
| Dicts.FromDistinctPairs | logic.py:49 | pairs with distinct keys become a dict with exactly those items in the same order |
| Dicts.Zip | app/logic.py:55 | `zip` has the length of the shorter input and pairs up equal positions |
| Permutations.DistinctIffSingleMultiplicity | app/logic.py:54 | a sequence has no duplicates exactly when every element occurs at most once in its multiset |
| Permutations.PermutationOfDistinct | logic.py:44-48 | a permutation of a duplicate-free sequence is duplicate-free, has the same length and the same members |
| Permutations.ZipPermutationIsBijection | app/logic.py:47-55 | zipping a permutation of a duplicate-free pool against the pool gives a bijection of the pool onto itself |
| LegacyLogic.IsValidPairing | logic.py:22-28 | the early-exit walk returns true exactly when no recipient is among the last two entries of its giver's list |
| LegacyLogic.ValidatorIgnoresSelfPairs | logic.py:22-28 | the validator accepts a self-pair unless the giver's own window names the giver |
| LegacyLogic.RecentRecipientRejected | logic.py:25-27 | a recipient at one of the last two positions of its giver's list invalidates the pairing |
| LegacyLogic.OlderEntriesIgnored | logic.py:25 | a recipient occurring only earlier than the last two entries does not invalidate the pairing |
| LegacyLogic.NoHistoryAlwaysValid | main.py:41-46 | an assignment whose givers are all absent from the history is valid |
| LegacyLogic.CandidateOfDistinctNames | logic.py:43-49 | with the distinct keys of a dict as names, the comprehension is the zip itself |
| LegacyLogic.AcceptsIffAllowedDerangement | logic.py:49-56 | a shuffle is kept exactly when no position pairs a name with itself and every position passes the window rule |
| LegacyLogic.ZipSelfPairIff | logic.py:52 | the zip of names and recipients has a self-pair exactly when the two lists agree at some position |
| LegacyLogic.ZipValidIff | logic.py:22-28 | the zip of names and recipients passes the validator exactly when each position passes the window rule |
| LegacyLogic.GenerateSecretSanta | logic.py:43-60 | when some shuffle is accepted, the result is the dict of the first accepted shuffle; the result is `{}` or such a dict, after rejected shuffles only; `{}` when all 100 are rejected |
| LegacyLogic.GeneratedAssignmentIsValid | main.py:73-80 | a returned dict never holds a self-pair and always passes the validator |
| LegacyLogic.ReturnedEntriesAllowed | main.py:77-80 | every giver -> recipient entry of a returned dict passes the window rule |
| LegacyLogic.GeneratedAssignmentIsBijection | logic.py:43-49 | with permutation shuffles, a non-empty result maps the names one to one onto themselves |
| LegacyLogic.EmptyPoolGivesEmptyDict | logic.py:43-60 | an empty history yields `{}`, the same value as exhaustion |
| LegacyLogic.SingletonShuffleHasSelfPair | logic.py:51-53 | a shuffle of a single name always pairs the name with itself |
| LegacyLogic.SingleNameGivesEmptyDict | main.py:63-82 | with one name every shuffle is skipped and `{}` is returned |
| MainSample.SampleIsDict | main.py:6-13 | the sample is a dict whose keys are the six names in order |
| MainSample.SampleWindows | main.py:6-13 | the two-entry window of each sample giver |
| MainSample.BabsiNeverDrawsSteffi | main.py:12 | no result assigns Babsi to Steffi |
| MainSample.AlexNeverDrawsKathi | main.py:7 | no result assigns Alex to Kathi |
| MainSample.GoodAssignmentIsCandidate | main.py:71 | the candidate built from the example shuffle is the example assignment |
| MainSample.GoodAssignmentDeranged | main.py:74 | the example assignment has no self-pair |
| MainSample.GoodAssignmentValid | main.py:78 | the example assignment passes the validator |
| MainSample.GoodShuffleAccepted | main.py:71-80 | the example shuffle is accepted |
| MainSample.AlexMayDrawBabsi | main.py:7 | when the first shuffle is the example one it is returned, and Alex draws Babsi, his oldest recorded recipient |
| MainSample.SampleResultIsBijection | main.py:61-71 | any result on the sample is empty or a bijection of the six names |

## Left out

- Persistence is not modelled: `store_new_receiver` in app/logic.py:99-111 and logic.py:83-106, `fetch_past_receiver` in logic.py:64-79, and the SQL/SQLAlchemy layers (sql.py, app/sql.py, app/queries.py). These are database I/O. The rule that a receiver is unique per year is enforced by the database.
- The Flask routes, blueprints, decorators, configuration, ORM models and the `Backend` package are request and UI plumbing.
- Logging calls are left out. The YAML logging setup and result printing in main.py:15-21 and main.py:85-90 are left out too.
- The probability distribution of `random.sample` and `random.shuffle` is not modelled, and neither is any expected success rate. The draws are parameters.
- The provider is modelled as pure data (`AppLogic.Provider`): a participant list plus a map from giver id to assignment records in database order. `get_all_participants` and `get_assignments_for_giver` are database queries. A missing key models the `receivers is None` branch.
- Dicts.FromPairs: the position rule (a repeated key stays at the position of its first pair) is shown only by the example `AppLogic.RepeatedKeyOverwritten`, not proved in general.
- AppLogic.GenerateSecretSanta: takes exactly 1000 draws, one per loop iteration, and only uses as many as the loop consumes.
- LegacyLogic.GenerateSecretSanta: takes exactly 100 shuffles in the same way.
- AppLogic.GeneratedPairingIsBijection: assumes unique participant ids, because they are database primary keys. `AppLogic.RepeatedIdsEscapeValidation` shows what happens otherwise.
- AppLogic.GeneratedPairingRespectsRules: states the history rule only for givers that the provider lists. The fetched history has no entry for other ids. The only caller passes the provider's own participant list, so no giver falls outside it.
