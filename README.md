# cpm hand recorder and session form, modelled in Dafny

This project models the score-keeping core of the cpm card-game tracker:

- the **hand recorder** (`cpm/components/RecordHand.tsx`): while a hand is
  played it keeps a giver/owner selection, the points typed in, the ordered
  list of point actions, the scores object those actions produce and the
  settlement transactions derived from the scores; submitting the hand hands
  it over and clears the per-hand state;
- the **session creation form** (`cpm/components/CreateSessionForm.tsx`):
  ticking players on and off, and creating a session once at least two are
  ticked.

Files:

- `scores.dfy` (module `Scores`): the scores object, a JavaScript object from
  player name to score, as a list of entries in key insertion order (the
  order `Object.entries` reports string keys in), with lookup (`m[k] || 0`),
  computed-key update (`{...m, [k]: v}`) and the total.
- `settlement.dfy` (module `Settlement`): `calculateFinalTransactions` — the
  filter to session players, the stable descending sort and the index loop
  over adjacent pairs — and the settlement rule it amounts to.
- `record_hand.dfy` (module `RecordHand`): the selection, the score change of
  an add and of a remove, the action list, the invariant tying scores to
  actions, and the class `HandRecorder` whose methods are the component's
  handlers.
- `create_session_form.dfy` (module `CreateSessionForm`): the toggle, the
  creation guard and the new session record, and the class `SessionForm`.

The recorder's state is a class whose invariant `Valid()` says: the scores
have unique keys; every recorded action has positive points and both its keys
in the scores; each score is the net effect of the actions on its key; the
total is 0 except for points taken out by an action whose giver and owner
share a key; and the transactions are `FinalTransactions(scores, players)`.
Every handler keeps this invariant. The `useEffect` that recomputes the
transactions whenever the scores change is folded into the handlers that
change the scores.

What the settlement loop amounts to, proved for all inputs: after the stable
sort, a pair emits a payment exactly when a positive score is directly
followed by a negative one, and a sorted list has at most one such place.
So at most one payment is emitted. It is emitted exactly when some session
player has a positive entry in the scores object, some has a negative entry
and none has an entry of 0: a 0 sits between the two groups and blocks the
payment. A session player with no entry at all does not block it. The
payment goes from the session player with the negative score closest to 0 to
the one with the smallest positive score, for the smaller of the two amounts.
The sort is stable, so ties are decided by key order: the payee is the last
such player in key order, the payer the first.

Two quirks of the code are modelled as written rather than assumed away:

- If giver and owner are the same key, the object literal writes the giver
  key last, so the player just loses the points and the total drops. Only
  the giver/owner lists keep this from happening (`SelectionExclusion`),
  except for a session player named "undefined" chosen as owner before any
  giver, whose key is the hole's key. The invariant accounts for it through
  `SelfLoss`.
- Choosing an owner before a giver makes `selectedPlayers` a two-slot array
  with a hole at position 0. The add step then accepts it and debits the key
  `"undefined"` (`OwnerFirstDebitsUndefined`). A hole is `Slot.Unset`, and
  its key is `"undefined"`.

The cap of three actions lives only in the disabled add button, not in
`handleAddPoints`. `AddPoints` models the handler with no cap, and
`PressAddPoints` models a press of the button.

Three more consequences of the code as written:

- The rule does not settle every debt. For scores P1: -10, P2: 15, P3: -5 the
  code sorts P2, P3, P1 and emits only P3 -> P2: 5 (`ThreePlayers`).
- `handleAddPoints` rejects nothing with an error. Its guard ignores an add
  with 0 points, and only the giver/owner lists keep a same-key action from
  being recorded, except for a player named "undefined" chosen as owner
  before any giver, whose key is the hole's key.
- A hand in which no action was ever recorded has an empty scores object,
  not an entry at 0 for every player. Removing an action keeps its two keys
  (`UndoActionScores`), so a hand whose actions were all removed holds them
  at 0.

## Model

| member | source | states |
|---|---|---|
| Scores.Get | cpm/components/RecordHand.tsx:59-60 | a lookup defaulted to 0; its facts are `GetAbsent` and `GetEntry` |
| Scores.Update | cpm/components/RecordHand.tsx:57-61 | the computed-key write; its facts are `UpdateGet`, `UpdateKeys` and `SumUpdate` |
| Scores.GetAbsent | cpm/components/RecordHand.tsx:59-60 | reading a key that is not in the object, defaulted to 0, gives 0 |
| Scores.GetEntry | cpm/components/RecordHand.tsx:83 | in an object with unique keys, each entry `Object.entries` reports carries the value a lookup of its key returns |
| Scores.UpdateGet | cpm/components/RecordHand.tsx:57-61 | after a computed-key write, that key reads as the written value and every other key reads as before |
| Scores.UpdateKeys | cpm/components/RecordHand.tsx:57-61 | a computed-key write adds exactly that key and keeps keys unique |
| Scores.SumUpdate | cpm/components/RecordHand.tsx:57-61 | a write changes the total by the new value minus the old one (0 when absent) |
| Settlement.Known | cpm/components/RecordHand.tsx:83-84 | the filter to session players; its facts are `KnownMembers`, `KnownKeys` and `KnownAll` |
| Settlement.FinalTransactions | cpm/components/RecordHand.tsx:82-96 | the transactions for the scores and players; its facts are `FinalTransactionsCount`, `FinalTransactionsPayment` and `FinalTransactionsTies` |
| Settlement.KnownMembers | cpm/components/RecordHand.tsx:83-84 | the filter keeps exactly the entries whose name is a session player |
| Settlement.KnownKeys | cpm/components/RecordHand.tsx:83-84 | the filtered entries are keys of the object and stay unique |
| Settlement.KnownAll | cpm/components/RecordHand.tsx:84 | when every key is a session player, the filter keeps every entry in order |
| Settlement.Insert | cpm/components/RecordHand.tsx:85 | inserting into a list sorted highest first keeps it sorted and adds exactly the new entry |
| Settlement.InsertPermutes | cpm/components/RecordHand.tsx:85 | insertion adds one occurrence of the entry and changes no other count |
| Settlement.SortDesc | cpm/components/RecordHand.tsx:85 | the sort by `b - a` orders scores highest first and keeps exactly the same entries (stability: `SortDescStable`) |
| Settlement.InsertWithScore | cpm/components/RecordHand.tsx:85 | insertion puts the new entry ahead of every entry with the same score and keeps their order |
| Settlement.SortDescStable | cpm/components/RecordHand.tsx:85 | the sort is stable: for every score, the entries with that score keep their key order |
| Settlement.SortDescStableAll | cpm/components/RecordHand.tsx:85 | stability, for all scores at once |
| Settlement.SortDescPermutes | cpm/components/RecordHand.tsx:85 | the sort is a permutation |
| Settlement.SortLowestFirst | cpm/components/RecordHand.tsx:85 | three entries whose first is lowest sort with it moved to the end, the other two keeping their order |
| Settlement.CalculateFinalTransactions | cpm/components/RecordHand.tsx:82-99 | the computed transactions are those of the settlement rule for the scores and players |
| Settlement.SettlePairs | cpm/components/RecordHand.tsx:87-96 | the loop's pushes are, in order, the payment each adjacent pair emits |
| Settlement.Step | cpm/components/RecordHand.tsx:90-95 | what one iteration pushes; its facts are `StepAtBoundary` |
| Settlement.Emitted | cpm/components/RecordHand.tsx:89-96 | what the loop's iterations push, in order; `SettlePairs` is proved equal to it and `SortedRule` states what it holds over a sorted list |
| Settlement.StepAtBoundary | cpm/components/RecordHand.tsx:90-95 | a pair pushes a payment exactly when a positive score is followed by a negative one; it goes from the lower to the higher player for `min(higher, -lower)` |
| Settlement.EmittedNone | cpm/components/RecordHand.tsx:89-96 | without such a pair, nothing is pushed |
| Settlement.EmittedOne | cpm/components/RecordHand.tsx:89-96 | with exactly one such pair, its payment is the only one pushed |
| Settlement.EmittedThree | cpm/components/RecordHand.tsx:89 | over three entries the loop visits the pairs at 0 and 1 |
| Settlement.BoundaryUnique | cpm/components/RecordHand.tsx:85-96 | a list sorted highest first has at most one positive-then-negative pair |
| Settlement.SortedBoundary | cpm/components/RecordHand.tsx:85-96 | a sorted list with a positive, a negative and no zero score has a positive-then-negative pair, between the last positive and the first negative |
| Settlement.SortedBoundaryWitness | cpm/components/RecordHand.tsx:85-96 | a sorted list with such a pair has a positive, a negative and no zero score |
| Settlement.SortedRule | cpm/components/RecordHand.tsx:85-96 | over a sorted list at most one payment is pushed, one is pushed exactly when there is a positive, a negative and no zero score, and it is the payment of the pair where the signs meet |
| Settlement.BoundaryExtremes | cpm/components/RecordHand.tsx:85-96 | the pair where the signs meet holds the smallest positive and the largest negative score |
| Settlement.BoundarySmallestGap | cpm/components/RecordHand.tsx:85-96 | the payment of the pair where the signs meet in a sorted arrangement goes from the largest negative to the smallest positive score, for the smaller amount |
| Settlement.SortedPayment | cpm/components/RecordHand.tsx:85-96 | a payment over a sorted arrangement of the entries goes from the largest negative to the smallest positive score, for the smaller amount |
| Settlement.FinalTransactionsCount | cpm/components/RecordHand.tsx:82-96 | at most one transaction, and one exactly when some session player has a positive entry, some a negative entry and none an entry of 0 (a player with no entry does not block); none when all entries are at least 0 or all at most 0 |
| Settlement.FinalTransactionsPayment | cpm/components/RecordHand.tsx:82-96 | the transaction, if any, goes from a session player with the negative score closest to 0 to one with the smallest positive score, for the smaller of the two amounts |
| Settlement.BoundaryTies | cpm/components/RecordHand.tsx:85-96 | the pair where the signs meet holds the last entry with the smallest positive score and the first entry with the largest negative score |
| Settlement.SortedTies | cpm/components/RecordHand.tsx:85-96 | over a sorted arrangement that keeps the order within each score, the payee is the last entry with its score and the payer the first with its score |
| Settlement.FinalTransactionsTies | cpm/components/RecordHand.tsx:82-96 | on ties the key order decides: the payee is the last session player in key order with the payee's score, the payer the first with the payer's score |
| Settlement.TiesPayLast | cpm/components/RecordHand.tsx:82-96 | scores a: 5, b: 5, c: -3 in that key order settle as the single payment c -> b of 3 |
| Settlement.ThreePlayers | cpm/components/RecordHand.tsx:82-96 | scores x: -10, y: 15, z: -5 settle as the single payment z -> y of 5 |
| Settlement.ZeroBlocksPayment | cpm/components/RecordHand.tsx:82-96 | scores x: 5, y: 0, z: -5 settle with no payment |
| RecordHand.Key | cpm/components/RecordHand.tsx:56-60 | the computed key of a slot, "undefined" for a hole; used by `OwnerFirstDebitsUndefined` |
| RecordHand.PointsValue | cpm/components/RecordHand.tsx:50-52 | the empty field and text `parseInt` cannot read give 0, a number gives itself |
| RecordHand.SelectAt | cpm/components/RecordHand.tsx:42-48 | the chosen name is at the index, every other position reads as before, and writing past the end lengthens the array |
| RecordHand.AvailablePlayers | cpm/components/RecordHand.tsx:103-111 | the giver list is the players other than the selected owner, the owner list the players other than the selected giver |
| RecordHand.SelectionExclusion | cpm/components/RecordHand.tsx:103-111 | choosing the giver or owner from the list offered never makes giver and owner the same player |
| RecordHand.OwnerFirstDebitsUndefined | cpm/components/RecordHand.tsx:54-61 | an owner chosen with no giver gives a two-slot selection whose add credits the owner and debits the key "undefined", which the filter then drops |
| RecordHand.Shift | cpm/components/RecordHand.tsx:57-61 | the two-key object literal, used by both the add and the remove (lines 75-79); its facts are `ShiftScores` and `ShiftTotal` |
| RecordHand.ShiftScores | cpm/components/RecordHand.tsx:57-61 | the two-key object literal moves the points from the key written second to the key written first and touches no other key |
| RecordHand.ShiftTotal | cpm/components/RecordHand.tsx:57-61 | the two-key literal keeps the total unless the two keys coincide, when the total drops by the points |
| RecordHand.ApplyAction | cpm/components/RecordHand.tsx:57-61 | the scores after an add; its facts are `ApplyActionScores` and `ApplyActionTotal` |
| RecordHand.UndoAction | cpm/components/RecordHand.tsx:75-79 | the scores after a remove, both keys present; its facts are `UndoActionScores`, `UndoActionTotal` and `ApplyThenUndo` |
| RecordHand.ApplyActionScores | cpm/components/RecordHand.tsx:57-61 | an add raises the owner, lowers the giver (giver wins on the same key), reads absent as 0, adds both keys and leaves every other score alone |
| RecordHand.ApplyActionTotal | cpm/components/RecordHand.tsx:57-61 | an add keeps the total of the scores unless giver and owner share a key |
| RecordHand.UndoActionScores | cpm/components/RecordHand.tsx:75-79 | a remove lowers the owner, raises the giver, keeps the keys and leaves every other score alone |
| RecordHand.UndoActionTotal | cpm/components/RecordHand.tsx:75-79 | a remove gives back to the total what the add took out |
| RecordHand.ApplyThenUndo | cpm/components/RecordHand.tsx:57-79 | adding an action and then removing it restores every player's score, absent read as 0 |
| RecordHand.NothingToSettle | cpm/components/RecordHand.tsx:129-131 | empty scores settle to no transactions |
| RecordHand.RemoveAt | cpm/components/RecordHand.tsx:74 | the filter drops only the action at the index and keeps the others in order |
| RecordHand.RemoveAtNet | cpm/components/RecordHand.tsx:72-79 | dropping an action takes exactly its effect out of every net score |
| RecordHand.RemoveAtSelfLoss | cpm/components/RecordHand.tsx:72-79 | dropping an action gives back what it took out of the total |
| RecordHand.NoSelfLoss | cpm/components/RecordHand.tsx:57-61 | actions with distinct giver and owner take nothing out of the total |
| RecordHand.RecordThenRemove | cpm/components/RecordHand.tsx:62-74 | appending an action and removing it again restores the action list |
| RecordHand.RecordKeepsConsistent | cpm/components/RecordHand.tsx:54-69 | an add with positive points keeps the scores equal to the net effect of the lengthened action list |
| RecordHand.RemoveKeepsConsistent | cpm/components/RecordHand.tsx:72-80 | every recorded action can be removed (its keys are present), and removing it keeps the scores equal to the net effect of the remaining actions |
| RecordHand.ZeroSum | cpm/components/RecordHand.tsx:57-61 | while no action has giver equal to owner, the scores sum to 0 |
| RecordHand.HandRecorder.constructor | cpm/components/RecordHand.tsx:32-36 | the recorder starts with no scores, selection, points, transactions or actions |
| RecordHand.HandRecorder.SelectPlayer | cpm/components/RecordHand.tsx:42-48 | the selection becomes the old one with the name written at the index |
| RecordHand.HandRecorder.ChangePointsOnTop | cpm/components/RecordHand.tsx:50-52 | the points become the parsed value of the field |
| RecordHand.HandRecorder.Available | cpm/components/RecordHand.tsx:103-111 | the list offered for the giver or the owner slot; its facts are `AvailablePlayers` and `SelectionExclusion` |
| RecordHand.HandRecorder.CanAddMoreTransactions | cpm/components/RecordHand.tsx:101 | fewer than 3 actions recorded; `PressAddPoints` shows it caps the list at 3 |
| RecordHand.HandRecorder.CanAdd | cpm/components/RecordHand.tsx:55 | the guard of the add; `AddPoints` shows nothing changes without it |
| RecordHand.HandRecorder.Pending | cpm/components/RecordHand.tsx:54-66 | the action the add records; `AddPoints` shows it is appended and applied |
| RecordHand.HandRecorder.AddPointsEnabled | cpm/components/RecordHand.tsx:171 | the add button is enabled; `PressAddPoints` shows a press acts exactly then |
| RecordHand.HandRecorder.AddPoints | cpm/components/RecordHand.tsx:54-70 | with two slots selected and positive points, the scores take the action, it is appended, the selection and points are cleared and the transactions follow the scores; otherwise nothing changes |
| RecordHand.HandRecorder.PressAddPoints | cpm/components/RecordHand.tsx:169-172 | an enabled press (two slots, positive points, fewer than 3 actions) records the pending action, applies it to the scores and clears the selection and points; a disabled press changes nothing, so the list never grows past 3 |
| RecordHand.HandRecorder.RemoveAction | cpm/components/RecordHand.tsx:72-80 | the action at the index is dropped, its score change reversed, and the transactions follow the scores |
| RecordHand.HandRecorder.SubmitHand | cpm/components/RecordHand.tsx:113-132 | the submitted hand is the current actions, scores and transactions; afterwards all three are empty |
| CreateSessionForm.Without | cpm/components/CreateSessionForm.tsx:22 | every occurrence of the name is removed and every other name keeps its count |
| CreateSessionForm.Toggle | cpm/components/CreateSessionForm.tsx:19-25 | a ticked name is removed, an unticked name is appended at the end, other names are unaffected |
| CreateSessionForm.WithoutConcat | cpm/components/CreateSessionForm.tsx:22 | the filter distributes over concatenation, so remaining names keep their order |
| CreateSessionForm.WithoutAbsent | cpm/components/CreateSessionForm.tsx:22 | filtering out a name that does not occur changes nothing |
| CreateSessionForm.ToggleTwice | cpm/components/CreateSessionForm.tsx:20-24 | toggling an unticked name twice restores the selection |
| CreateSessionForm.WithoutNoDuplicates | cpm/components/CreateSessionForm.tsx:22 | filtering keeps a duplicate-free list duplicate-free |
| CreateSessionForm.ToggleNoDuplicates | cpm/components/CreateSessionForm.tsx:20-24 | toggling keeps a duplicate-free selection duplicate-free |
| CreateSessionForm.CreatedSessions | cpm/components/CreateSessionForm.tsx:27-36 | with at least 2 ticked, one session for exactly the ticked players, with the given id and date and no hands, is appended after the existing ones; otherwise the list is unchanged |
| CreateSessionForm.SessionForm.constructor | cpm/components/CreateSessionForm.tsx:10-17 | the form starts with the stored players and sessions and nothing ticked |
| CreateSessionForm.SessionForm.TogglePlayer | cpm/components/CreateSessionForm.tsx:19-25 | the selection becomes the toggled one |
| CreateSessionForm.SessionRoute | cpm/components/CreateSessionForm.tsx:37 | the route of the new session; `CreateSession` returns it exactly when a session is created |
| CreateSessionForm.SessionForm.CreateEnabled | cpm/components/CreateSessionForm.tsx:65 | the create button is enabled with at least 2 ticked; `CreateSession` navigates exactly then |
| CreateSessionForm.SessionForm.CreateSession | cpm/components/CreateSessionForm.tsx:27-39 | the stored sessions become the created ones, and the form navigates to the new session's route exactly when the button is enabled (at least 2 ticked) |

## Left out

- Browser storage: `localStorage` reads and writes in both components are not modelled. The stored sessions of the form are a field. A submitted hand is returned rather than pushed into the session found by `findIndex`.
- `onHandSubmitted`, the router and the uuid generator are not modelled. Today's date is also not modelled. The id and date of a new session are parameters. The navigation target is returned as a string.
- React plumbing is not modelled: JSX rendering, hooks and effect scheduling. The effect that recomputes the transactions after a score change runs within the handler that changes the scores.
- The proportional settlement across hands (`cpm/app/session/[id]/page.tsx`) is not part of this model. It uses floating-point division and `Math.round`.
- JavaScript orders integer-like keys (such as "12") before other keys in `Object.entries`. The model keeps every key in insertion order. This affects only the tie order of the sort for such names.
- `parseInt` is not modelled character by character. `PointsInput` gives the field's value already classified as empty, a number or unreadable.
- Names that are members of `Object.prototype` (such as "constructor", "toString", "valueOf" or "__proto__") are not modelled as the code treats them. In the code, `prev[name] || 0` reads an inherited value for such a name before it has a score. An owner then gets a string score and a giver gets `NaN`. The model treats every name without a score as an absent key that reads as 0 (`Scores.Get`).
- Number width is not modelled: scores are unbounded integers, where JavaScript numbers are doubles. This matters only past 2^53.
- RecordHand.HandRecorder.RemoveAction: requires the index to be in range. The code reads `handActions[index]` and would fail on a missing action; the page only offers existing indices.
- RecordHand.UndoAction: requires both keys to be present. The code reads them without a default, so an absent key would give `NaN`. The invariant shows they are always present.
- RecordHand.HandRecorder.SubmitHand: the selection and the points field are not reset, as in the code.
- The players page, the API route handlers, the database migrations and the connection pool are not part of this model. The same goes for the session list and the layout. They are network, database or presentation code.
