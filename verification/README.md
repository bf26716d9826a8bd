# Secret Santa organiser — pairing generator and registry updates

This project models the core of a small Secret Santa web application. The
model covers two parts.

- **The pairing generator** (`generateSecretSantaPairs`). It uses rejection
  sampling over Fisher–Yates shuffles of the roster. Each attempt reshuffles
  a working copy and pairs giver `participants[i]` with receiver
  `shuffled[i]`. The attempt is accepted when no giver draws themself and no
  giver draws someone already listed for them in `previousPairings`. After
  100 rejected attempts the generator gives up.
- **The component's state updates.** These are `addParticipant`,
  `removeParticipant`, `addPreviousPairing` and `removePreviousPairing`,
  modelled as pure functions. Each works on the roster (a sequence of
  name/phone entries) and on the registry of last year's matches (a map
  from giver name to a list of receiver names).

Files:

- `model.dfy` (module `SantaModel`): participants, pairs, the registry, the
  component state, and the outcome of a guarded edit (`Applied`,
  `Rejected`, `Ignored`). It also holds the invariants: unique names, a
  well-formed registry, and a consistent state.
- `shuffle.dfy` (module `Shuffle`): the Fisher–Yates pass as a function of
  an explicit random oracle, and the working copy after any number of
  attempts. Each attempt starts from the order the previous one left,
  because the copy is made once, before the loop.
- `generator.dfy` (module `Generator`): the generator as a method whose
  loops follow the source. It also holds the properties of its result
  and the scenarios (two people with a forbidden pair, one person, nobody,
  three people with no history).
- `updates.dfy` (module `Updates`): the four state updates, their
  inverses, and the proofs that `addParticipant`, `removeParticipant` and
  `removePreviousPairing` keep the state consistent. `addPreviousPairing`
  keeps it consistent only when both selected names are on the roster
  (see "## Findings").

`Math.random` becomes a parameter `rand: (nat, nat) -> real`. The value
`rand(a, i)` is the draw for position `i` during attempt `a`, and every
draw lies in [0, 1). The swap index is `floor(rand(a, i) * (i + 1))`,
computed in exact real arithmetic (see "## Left out" for how this differs
from double rounding).

Facts about the code that the model keeps:

- A participant carries a phone number, and each generated pair carries
  the giver's phone (`giverPhone`).
- Registry lists are sequences, not sets. `addParticipant` refuses a name
  already on the roster, and `addPreviousPairing` refuses a pair already
  registered.
- `generateSecretSantaPairs` does not check the roster size itself. The
  component's button that starts generation is disabled while the roster
  has fewer than two people (src/App.js:267-269). For the smaller rosters,
  the model shows what the function would do: an empty roster succeeds at
  once with no pairs, and a single participant fails every attempt.

## Model

| member | source | states |
|---|---|---|
| SantaModel.UniqueNamesIffDistinctNames | src/App.js:75 | A roster has unique names exactly when its list of names has no repeats. |
| Shuffle.SwapIndex | src/App.js:11 | The partner index `floor(x * (i + 1))` for a draw `x` in [0, 1) never exceeds `i`. |
| Shuffle.Swap | src/App.js:12 | The destructuring swap puts the old `s[j]` at `i` and the old `s[i]` at `j`, and leaves every other position as it was. |
| Shuffle.ShuffleDown | src/App.js:10-13 | The swaps for positions k-1 down to 1 keep the length. |
| Shuffle.ShuffleDownKeepsSuffix | src/App.js:10-13 | Those swaps never touch an entry at position k or above. |
| Shuffle.ShufflePass | src/App.js:10-13 | One whole pass keeps the length. |
| Shuffle.StateAfter | src/App.js:4-13 | The working copy keeps the roster's length after any number of attempts. |
| Shuffle.Candidate | src/App.js:4-13 | The arrangement each attempt tests has the roster's length. |
| Shuffle.SwapPermutes | src/App.js:12 | Exchanging two entries keeps the multiset of participants and the multiset of their names. |
| Shuffle.ShuffleDownPermutes | src/App.js:10-13 | The swaps for positions k-1 down to 1 only rearrange the sequence: participants and names occur equally often before and after. |
| Shuffle.ShufflePassPermutes | src/App.js:10-13 | A whole Fisher–Yates pass is a rearrangement of its input. |
| Shuffle.StateAfterPermutes | src/App.js:4-13 | The working copy is taken once and reshuffled on each attempt. After any number of attempts it is still a rearrangement of the roster. |
| Shuffle.CandidatePermutes | src/App.js:4-13 | The arrangement each attempt tests is a rearrangement of the roster. |
| Generator.FisherYates | src/App.js:10-13 | The in-place loop, from the last index down to 1, produces exactly the pass that the shuffle functions define for that attempt's draws. |
| Generator.CheckArrangement | src/App.js:15-27 | The validation loop answers true exactly when every giver differs from the receiver at the same index and that receiver is not in the giver's registry list. |
| Generator.BuildPairs | src/App.js:30-34 | The pairs give, at each index, the roster entry's name and phone as giver. The receivers, in order, are the names of the shuffled copy. |
| Generator.BuildPairsIsAssignment | src/App.js:29-34 | Pairing the roster with an accepted rearrangement of it gives one pair per participant, in roster order, with that participant's name and phone as giver. The receivers are the roster's names rearranged, and every pair is allowed. |
| Generator.GenerateSecretSantaPairs | src/App.js:3-43 | The result is Infeasible exactly when all 100 attempts are rejected. On success the result comes from the first accepted attempt and is an assignment: one pair per participant in roster order, receivers a rearrangement of the names, no self-gift, no repeat of a registered match. |
| Generator.ReceiversExactlyOnce | src/App.js:29-34 | With unique names, a successful result is a bijection. Every participant receives exactly once, nobody outside the roster receives, and no receiver repeats. |
| Generator.ForbiddenPairNeverValid | src/App.js:15-27 | For two people with a registered match in either direction, no attempt is accepted, whatever the draws. |
| Generator.ForbiddenPairScenario | src/App.js:37-42 | The roster A, B with A -> B registered always ends in Infeasible, and no partial result is returned. |
| Generator.SingleParticipantNeverValid | src/App.js:15-27 | A lone participant can only draw themself, so every attempt is rejected. |
| Generator.EmptyRosterSucceedsAtOnce | src/App.js:15-34 | An empty roster passes validation on the first attempt and yields no pairs. |
| Generator.ThreePersonCycles | src/App.js:15-34 | For three people with no history, any successful result is one of the two three-cycles A->B->C->A or A->C->B->A. |
| Updates.Without | src/App.js:94-96 | Filtering a receiver list removes every occurrence of the value and keeps every other entry as often as before. |
| Updates.WithoutKeepsDistinct | src/App.js:94-96 | Filtering a list without repeats leaves a list without repeats. |
| Updates.WithoutAppend | src/App.js:94-96 | Filtering works piecewise on a concatenation, so the kept entries keep their order. |
| Updates.WithoutAbsent | src/App.js:94-96 | Filtering out a value the list does not hold changes nothing. |
| Updates.RemoveNamedMembers | src/App.js:89 | Filtering the roster by name keeps exactly the entries with another name. |
| Updates.RemoveNamed | src/App.js:89 | The filtered roster is no longer than the original, and none of its entries has the removed name. |
| Updates.RemoveNamedKeepsUnique | src/App.js:89 | Filtering a roster with unique names leaves unique names. |
| Updates.RemoveNamedAppend | src/App.js:89 | The roster filter works piecewise, so the remaining participants keep their relative order. |
| Updates.RemoveNamedAbsent | src/App.js:89 | Filtering out a name nobody has leaves the roster as it was. |
| Updates.RemoveNamedUndoesAppend | src/App.js:79-89 | Filtering out a name that only the last entry has gives back the roster as it was before that entry was appended. |
| Updates.RemoveNamedAt | src/App.js:89 | With unique names, removing the participant at index k cuts out exactly that entry and keeps everyone else in order. |
| Updates.AddParticipant | src/App.js:73-85 | An empty name is ignored. A name already on the roster is refused with DuplicateName. Any other name is appended at the end with its phone. Unique names stay unique. |
| Updates.Prune | src/App.js:90-102 | After pruning, the registry no longer mentions the departed name, either as giver or as receiver. Every remaining list is non-empty and is the old list filtered in order: the departed name is gone and every other entry keeps its count. A giver keeps its key when someone else is still listed. Lists that never named the departed person are untouched. A well-formed registry stays well formed. |
| Updates.RemoveParticipant | src/App.js:87-105 | Afterwards the name is on neither the roster nor the registry, as giver or receiver. Every other roster entry is kept. |
| Updates.RemoveParticipantKeepsConsistent | src/App.js:87-105 | Removing a participant keeps the state consistent: names stay unique, the registry stays well formed, and it names only people still on the roster. |
| Updates.AddPreviousPairing | src/App.js:107-125 | The edit is ignored unless both names are non-empty and different. An already registered pair is refused with DuplicatePairing. Otherwise the receiver is appended to the giver's list, the key is created if needed, and every other key keeps its list. Afterwards the pair is registered. |
| Updates.AddPairingKeepsWellFormed | src/App.js:107-125 | Adding a pairing keeps every list non-empty, free of repeats and free of its own giver. |
| Updates.RemovePreviousPairing | src/App.js:127-136 | Afterwards the pair is no longer registered. The giver's list is the old list filtered in order, without the receiver. The key is dropped exactly when no other receiver remains. Every other key keeps its list, and no key is added. |
| Updates.RemovePairingKeepsWellFormed | src/App.js:127-136 | Removing a pairing keeps the registry well formed. |
| Updates.RemovePairingUndoesAdd | src/App.js:117-120 | Removing a pairing right after adding it gives back the registry as it was. This needs the giver's list to be non-empty, which holds in every well-formed registry. |
| Updates.PruneUnmentioned | src/App.js:90-102 | Pruning a name the well-formed registry never mentions changes nothing. |
| Updates.RemoveParticipantUndoesAdd | src/App.js:73-105 | In a consistent state, removing a participant right after adding them gives back the whole state, registry included. |
| Updates.AddParticipantKeepsConsistent | src/App.js:73-85 | Adding a participant keeps the state consistent. |
| Updates.AddPairingKeepsConsistent | src/App.js:107-125 | Adding a pairing keeps the state consistent, provided both selected names are on the roster. The component does not guarantee that (see "## Findings"). |
| Updates.AddPairingOffRosterBreaksConsistency | src/App.js:107-125 | In a consistent state, adding a pairing whose giver or receiver is not on the roster is applied, and the state stops being consistent. |
| Updates.StaleSelectionRemoval | src/App.js:87-105 | Removing A from the roster A, B, C with an empty registry leaves B, C and the empty registry. It does not clear the selected giver or receiver. |
| Updates.StaleSelectionScenario | src/App.js:107-125 | The state B, C with an empty registry is consistent. Adding the stale selection A -> B is applied and gives the registry {A: [B]}, and that state is not consistent. |
| Updates.StaleReceiverScenario | src/App.js:87-125 | Removing B from the roster A, B, C with an empty registry leaves A, C. Adding the stale selection A -> B is then applied and gives {A: [B]}, and that state is not consistent. |
| Updates.AddRosterPairing | src/App.js:107-125 | The corrected add ignores the edit unless both names are non-empty, different and on the roster. Otherwise it does what `addPreviousPairing` does. |
| Updates.AddRosterPairingKeepsConsistent | src/App.js:107-125 | With the roster guard, adding a pairing keeps every consistent state consistent, with no condition on the selected names. |
| Updates.RemovePairingKeepsConsistent | src/App.js:127-136 | Removing a pairing keeps the state consistent. |

## Left out

- Shuffle.SwapIndex: the product `x * (i + 1)` is computed in exact real arithmetic, not with double rounding. For some draws just below a multiple of `1/(i+1)` JavaScript's rounded product reaches the next integer, so the source's index can be one higher than the model's. For example, x = 6004799503160661/2^53 with i = 2 gives 2 in JavaScript and 1 in the model. Both stay in [0, i]. Every property of the generator quantifies over all draw oracles, so none depends on this.
- Shuffle.ShuffleDown: its own contract states only the length. ShuffleDownPermutes states that it rearranges, and ShuffleDownKeepsSuffix states which positions it leaves alone. Multiset facts in a recursive function's own contract make every caller's proof too costly.
- Shuffle.ShufflePass: its own contract states only the length. ShufflePassPermutes states that it rearranges, for the same cost reason.
- Shuffle.StateAfter: its own contract states only the length. StateAfterPermutes states that the working copy stays a rearrangement of the roster, for the same cost reason.
- Shuffle.Candidate: its own contract states only the length. CandidatePermutes states that it is a rearrangement of the roster, for the same cost reason.
- Updates.RemoveNamed: its own contract states only the length bound and that the removed name is gone. Exact membership is stated by RemoveNamedMembers and order by RemoveNamedAppend, for the same cost reason.
- React state, hooks, `useCallback` dependencies and all rendering are left out. The model keeps only the pure update that each setter applies.
- The render snapshot is not modelled. `addPreviousPairing` looks for a duplicate in the snapshot but appends to the setter's latest state. The model treats them as one state, which is true when updates are not batched between the two.
- `sendTextMessage` and the messaging loop after generation are left out. They are console and SMS side effects.
- `phoneRegex` and `validatePhone` are left out. They only set a display flag, and their use in `addParticipant` is commented out.
- Real randomness is replaced by the oracle `rand`. Nothing is claimed about how uniform the shuffle is.
- The error messages are left out. Each one becomes a variant: `Infeasible`, `DuplicateName`, `DuplicatePairing`. The component's other effects on success are also left out: clearing the input fields and clearing the error.
- Updates.RemovePreviousPairing: when the giver has no entry, the source fails with a TypeError because it reads the missing list. The model makes the entry's existence a precondition instead of modelling the crash. The user interface offers removal only for listed entries (src/App.js:247-254).
- Property lookups on JavaScript objects are not modelled. A giver name such as `constructor` would find an inherited member instead of a missing key. The model treats the registry as a plain map from strings.
- The share-link encoder/decoder and the text export are not part of this model. No code for them exists in `src/App.js`.

## Findings

| source | as written | input that shows it | evidently intended | confidence | as-written member | corrected member |
|---|---|---|---|---|---|---|
| src/App.js:107-125 | `addPreviousPairing` adds the selected names without checking that they are still on the roster. `removeParticipant` (src/App.js:87-105) does not clear the selection, and the add button (src/App.js:229-231) is enabled for any non-empty selection. | Roster A, B, C; select giver A and receiver B; remove A (or B); press the add button. The registry becomes {A: [B]} while A (or B) is off the roster. | A pairing is added only between people on the roster, so a removed participant never reappears in the registry. | medium; not executed | Updates.AddPairingOffRosterBreaksConsistency | Updates.AddRosterPairingKeepsConsistent |
