/** The hand recorder (`RecordHand`): while a hand is played it keeps the
    giver/owner selection, the points typed in, the ordered list of recorded
    point actions, the scores object those actions produce and the settlement
    transactions derived from the scores. Submitting hands the finished hand
    over and clears the per-hand state. */
module RecordHand {
  import opened Scores
  import opened Settlement

  /** One position of the `selectedPlayers` array: a chosen name, or a hole
      (reading it gives `undefined`). */
  datatype Slot = Unset | Chosen(name: string)

  /** The property key a slot writes to when used as a computed key: a hole
      reads as `undefined`, which becomes the key "undefined". */
  function Key(s: Slot): string
  {
    if s.Chosen? then s.name else "undefined"
  }

  /** A recorded action: `giver` hands `points` to `owner`. */
  datatype Action = Action(giver: Slot, owner: Slot, points: int)

  /** A submitted hand, as handed over for storage. */
  datatype Hand = Hand(actions: seq<Action>, scores: seq<Entry>, transactions: seq<Transaction>)

  /** The number of actions after which the add button is disabled. */
  const MaxActions := 3

  /** What the points field holds: empty, a number `parseInt` reads, or text
      it cannot read. */
  datatype PointsInput = Blank | Number(n: int) | NotANumber

  /** `value === '' ? 0 : parseInt(value) || 0` */
  function PointsValue(input: PointsInput): (v: int)
    ensures input.Number? ==> v == input.n
    ensures !input.Number? ==> v == 0
  {
    match input
    case Blank => 0
    case Number(n) => n
    case NotANumber => 0
  }

  // ----- the selection -----

  /** Reading position `i` of the selection; past the end it is `undefined`. */
  function SlotAt(sel: seq<Slot>, i: nat): Slot
  {
    if i < |sel| then sel[i] else Unset
  }

  /** `handlePlayerSelect`: a copy of the selection with `name` written at
      `index`; writing past the end lengthens the array and leaves holes. */
  function SelectAt(sel: seq<Slot>, index: nat, name: string): (r: seq<Slot>)
    ensures |r| == if index < |sel| then |sel| else index + 1
    ensures SlotAt(r, index) == Chosen(name)
    ensures forall i: nat :: i != index ==> SlotAt(r, i) == SlotAt(sel, i)
  {
    if index < |sel| then sel[index := Chosen(name)]
    else sel + seq(index - |sel|, _ => Unset) + [Chosen(name)]
  }

  /** The giver and the owner slots do not name the same player. */
  predicate Apart(sel: seq<Slot>)
  {
    SlotAt(sel, 0).Chosen? && SlotAt(sel, 1).Chosen? ==> SlotAt(sel, 0) != SlotAt(sel, 1)
  }

  /** `getAvailablePlayers(isGiver)`: the giver list leaves out the selected
      owner, the owner list leaves out the selected giver. */
  function AvailablePlayers(players: seq<Player>, sel: seq<Slot>, isGiver: bool): (r: seq<Player>)
    ensures forall p :: p in r <==>
              p in players && Chosen(p.name) != SlotAt(sel, if isGiver then 1 else 0)
    ensures |r| <= |players|
  {
    if players == [] then []
    else
      var rest := AvailablePlayers(players[1..], sel, isGiver);
      if Chosen(players[0].name) != SlotAt(sel, if isGiver then 1 else 0)
      then [players[0]] + rest
      else rest
  }

  /** Choosing the giver (index 0) or the owner (index 1) from the list the
      recorder offers never makes the two the same player. */
  lemma SelectionExclusion(players: seq<Player>, sel: seq<Slot>, index: nat, name: string)
    requires index < 2
    requires Player(name) in AvailablePlayers(players, sel, index == 0)
    ensures Apart(SelectAt(sel, index, name))
  {
  }

  /** Choosing an owner while no giver is chosen leaves a hole at position 0:
      the selection already has the length 2 the add step asks for, and the
      add debits the key "undefined", which is no player of the session. */
  lemma OwnerFirstDebitsUndefined(players: seq<Player>, name: string, p: int)
    requires p > 0 && name != "undefined" && Player("undefined") !in players
    ensures var sel := SelectAt([], 1, name);
            var m := ApplyAction([], Action(sel[0], sel[1], p));
            && |sel| == 2 && sel[0] == Unset
            && Get(m, name) == p && Get(m, "undefined") == -p
            && Known(m, players) == (if Player(name) in players then [Entry(name, p)] else [])
  {
    var sel := SelectAt([], 1, name);
    assert sel == [Unset, Chosen(name)];
    var m1 := Update([], name, p);
    assert m1 == [Entry(name, p)];
    assert Update(m1, "undefined", -p) == [m1[0]] + Update([], "undefined", -p);
    var m := ApplyAction([], Action(Unset, Chosen(name), p));
    assert m == [Entry(name, p), Entry("undefined", -p)];
    assert m[1..] == [Entry("undefined", -p)] && m[1..][1..] == [];
    assert Known(m[1..], players) == Known([], players) == [];
  }

  // ----- the scores -----

  /** What an action does to the score under key `k`: the giver loses the
      points and the owner gains them. When giver and owner share a key the
      giver's entry is written last and wins. */
  function Effect(a: Action, k: string): int
  {
    if k == Key(a.giver) then -a.points
    else if k == Key(a.owner) then a.points
    else 0
  }

  /** The points an action takes out of the total: nonzero only when giver and
      owner share a key. */
  function SelfPoints(a: Action): int
  {
    if Key(a.giver) == Key(a.owner) then a.points else 0
  }

  /** `{...m, [first]: (m[first] || 0) + p, [second]: (m[second] || 0) - p}`:
      both new values are read from `m`, and when the two keys coincide the
      one written second wins. */
  function Shift(m: seq<Entry>, first: string, second: string, p: int): seq<Entry>
  {
    Update(Update(m, first, Get(m, first) + p), second, Get(m, second) - p)
  }

  /** A shift moves `p` from `second` to `first` and touches no other key. */
  lemma ShiftScores(m: seq<Entry>, first: string, second: string, p: int)
    requires Keyed(m)
    ensures var r := Shift(m, first, second, p);
            && Keyed(r)
            && Keys(r) == Keys(m) + {first, second}
            && (forall k :: Get(r, k) == if k == second then Get(m, k) - p
                                         else if k == first then Get(m, k) + p
                                         else Get(m, k))
  {
    var m1 := Update(m, first, Get(m, first) + p);
    UpdateKeys(m, first, Get(m, first) + p);
    UpdateKeys(m1, second, Get(m, second) - p);
    UpdateGet(m, first, Get(m, first) + p);
    UpdateGet(m1, second, Get(m, second) - p);
  }

  /** A shift keeps the total unless the two keys coincide. */
  lemma ShiftTotal(m: seq<Entry>, first: string, second: string, p: int)
    requires Keyed(m)
    ensures Sum(Shift(m, first, second, p)) == Sum(m) - (if first == second then p else 0)
  {
    var m1 := Update(m, first, Get(m, first) + p);
    UpdateKeys(m, first, Get(m, first) + p);
    UpdateGet(m, first, Get(m, first) + p);
    SumUpdate(m, first, Get(m, first) + p);
    SumUpdate(m1, second, Get(m, second) - p);
  }

  /** The scores after `handleAddPoints` records `a`: the owner gains the
      points, then the giver loses them, absent entries read as 0. */
  function ApplyAction(m: seq<Entry>, a: Action): seq<Entry>
  {
    Shift(m, Key(a.owner), Key(a.giver), a.points)
  }

  /** The scores after `handleRemoveAction` takes `a` out: the owner loses the
      points, then the giver gets them back. The code reads both entries
      without a default, so both keys must be present, as they are for every
      recorded action. */
  function UndoAction(m: seq<Entry>, a: Action): seq<Entry>
    requires Key(a.owner) in Keys(m) && Key(a.giver) in Keys(m)
  {
    Shift(m, Key(a.owner), Key(a.giver), -a.points)
  }

  /** Recording an action adds its effect to every score (absent read as 0)
      and adds the two keys. */
  lemma ApplyActionScores(m: seq<Entry>, a: Action)
    requires Keyed(m)
    ensures var r := ApplyAction(m, a);
            && Keyed(r)
            && Keys(r) == Keys(m) + {Key(a.owner), Key(a.giver)}
            && (forall k :: Get(r, k) == Get(m, k) + Effect(a, k))
  {
    ShiftScores(m, Key(a.owner), Key(a.giver), a.points);
  }

  /** Recording an action keeps the total of the scores unless giver and owner
      share a key. */
  lemma ApplyActionTotal(m: seq<Entry>, a: Action)
    requires Keyed(m)
    ensures Sum(ApplyAction(m, a)) == Sum(m) - SelfPoints(a)
  {
    ShiftTotal(m, Key(a.owner), Key(a.giver), a.points);
  }

  /** Removing an action subtracts its effect from every score and keeps the
      keys. */
  lemma UndoActionScores(m: seq<Entry>, a: Action)
    requires Keyed(m) && Key(a.owner) in Keys(m) && Key(a.giver) in Keys(m)
    ensures var r := UndoAction(m, a);
            && Keyed(r)
            && Keys(r) == Keys(m)
            && (forall k :: Get(r, k) == Get(m, k) - Effect(a, k))
  {
    ShiftScores(m, Key(a.owner), Key(a.giver), -a.points);
    assert Keys(m) + {Key(a.owner), Key(a.giver)} == Keys(m);
  }

  /** Removing an action gives back to the total what recording it took out. */
  lemma UndoActionTotal(m: seq<Entry>, a: Action)
    requires Keyed(m) && Key(a.owner) in Keys(m) && Key(a.giver) in Keys(m)
    ensures Sum(UndoAction(m, a)) == Sum(m) + SelfPoints(a)
  {
    ShiftTotal(m, Key(a.owner), Key(a.giver), -a.points);
  }

  /** Recording an action and then removing it gives every player back the
      score they had, absent read as 0. */
  lemma ApplyThenUndo(m: seq<Entry>, a: Action)
    requires Keyed(m)
    ensures Key(a.owner) in Keys(ApplyAction(m, a)) && Key(a.giver) in Keys(ApplyAction(m, a))
    ensures forall k :: Get(UndoAction(ApplyAction(m, a), a), k) == Get(m, k)
  {
    ApplyActionScores(m, a);
    UndoActionScores(ApplyAction(m, a), a);
  }

  /** Empty scores settle to no transactions. */
  lemma NothingToSettle(players: seq<Player>)
    ensures FinalTransactions([], players) == []
  {
  }

  // ----- the action list -----

  /** `filter((_, i) => i !== index)`: every action but the one at `index`,
      in order. */
  function RemoveAt(s: seq<Action>, index: nat): (r: seq<Action>)
    requires index < |s|
    ensures |r| == |s| - 1
    ensures forall j :: 0 <= j < index ==> r[j] == s[j]
    ensures forall j :: index <= j < |r| ==> r[j] == s[j + 1]
  {
    s[..index] + s[index + 1..]
  }

  /** The net score the actions give key `k`. */
  function Net(acts: seq<Action>, k: string): int
  {
    if acts == [] then 0 else Effect(acts[0], k) + Net(acts[1..], k)
  }

  /** The points the actions take out of the total. */
  function SelfLoss(acts: seq<Action>): int
  {
    if acts == [] then 0 else SelfPoints(acts[0]) + SelfLoss(acts[1..])
  }

  /** No action has giver and owner on the same key. */
  predicate NoSelfAction(acts: seq<Action>)
  {
    forall a :: a in acts ==> Key(a.giver) != Key(a.owner)
  }

  lemma {:induction false} NetConcat(s: seq<Action>, t: seq<Action>, k: string)
    ensures Net(s + t, k) == Net(s, k) + Net(t, k)
  {
    if s == [] {
      assert s + t == t;
    } else {
      assert (s + t)[0] == s[0] && (s + t)[1..] == s[1..] + t;
      NetConcat(s[1..], t, k);
    }
  }

  lemma {:induction false} SelfLossConcat(s: seq<Action>, t: seq<Action>)
    ensures SelfLoss(s + t) == SelfLoss(s) + SelfLoss(t)
  {
    if s == [] {
      assert s + t == t;
    } else {
      assert (s + t)[0] == s[0] && (s + t)[1..] == s[1..] + t;
      SelfLossConcat(s[1..], t);
    }
  }

  /** An action in the middle of a list adds its effect to the net scores
      of the rest. */
  lemma NetSplit(pre: seq<Action>, a: Action, post: seq<Action>, k: string)
    ensures Net(pre + [a] + post, k) == Net(pre + post, k) + Effect(a, k)
  {
    assert pre + [a] + post == pre + ([a] + post);
    NetConcat(pre, [a] + post, k);
    NetConcat(pre, post, k);
    assert ([a] + post)[1..] == post;
  }

  /** An action in the middle of a list adds its self points to those of the
      rest. */
  lemma SelfLossSplit(pre: seq<Action>, a: Action, post: seq<Action>)
    ensures SelfLoss(pre + [a] + post) == SelfLoss(pre + post) + SelfPoints(a)
  {
    assert pre + [a] + post == pre + ([a] + post);
    SelfLossConcat(pre, [a] + post);
    SelfLossConcat(pre, post);
    assert ([a] + post)[1..] == post;
  }

  /** A list is the part before position `i`, the element there and the part
      after it. */
  lemma Pieces(s: seq<Action>, i: nat)
    requires i < |s|
    ensures s == s[..i] + [s[i]] + s[i + 1..]
    ensures RemoveAt(s, i) == s[..i] + s[i + 1..]
  {
  }

  /** Dropping one action takes exactly its effect out of every net score. */
  lemma RemoveAtNet(s: seq<Action>, index: nat, k: string)
    requires index < |s|
    ensures Net(RemoveAt(s, index), k) == Net(s, k) - Effect(s[index], k)
  {
    Pieces(s, index);
    NetSplit(s[..index], s[index], s[index + 1..], k);
  }

  /** Dropping one action gives back the points it took out of the total. */
  lemma RemoveAtSelfLoss(s: seq<Action>, index: nat)
    requires index < |s|
    ensures SelfLoss(RemoveAt(s, index)) == SelfLoss(s) - SelfPoints(s[index])
  {
    Pieces(s, index);
    SelfLossSplit(s[..index], s[index], s[index + 1..]);
  }

  /** Actions whose giver and owner keys differ take nothing out of the total. */
  lemma {:induction false} NoSelfLoss(acts: seq<Action>)
    requires NoSelfAction(acts)
    ensures SelfLoss(acts) == 0
  {
    if acts != [] {
      assert acts[0] in acts;
      assert forall a :: a in acts[1..] ==> a in acts;
      NoSelfLoss(acts[1..]);
    }
  }

  /** Recording an action and then removing it restores the action list. */
  lemma RecordThenRemove(acts: seq<Action>, a: Action)
    ensures RemoveAt(acts + [a], |acts|) == acts
  {
    assert (acts + [a])[..|acts|] == acts;
  }

  // ----- the invariant -----

  /** The scores are what the recorded actions produce: keys are unique, every
      action has positive points and both its keys present, each score is the
      net effect of the actions on its key, and the total is 0 up to what
      same-key actions took out. */
  ghost predicate Consistent(m: seq<Entry>, acts: seq<Action>)
  {
    && Keyed(m)
    && (forall a :: a in acts ==>
          a.points > 0 && Key(a.giver) in Keys(m) && Key(a.owner) in Keys(m))
    && (forall k :: Get(m, k) == Net(acts, k))
    && Sum(m) == -SelfLoss(acts)
  }

  /** Recording an action with positive points keeps the scores consistent
      with the lengthened action list. */
  lemma RecordKeepsConsistent(m: seq<Entry>, acts: seq<Action>, a: Action)
    requires Consistent(m, acts) && a.points > 0
    ensures Consistent(ApplyAction(m, a), acts + [a])
  {
    ApplyActionScores(m, a);
    ApplyActionTotal(m, a);
    SelfLossConcat(acts, [a]);
    forall k ensures Net(acts + [a], k) == Net(acts, k) + Effect(a, k) {
      NetConcat(acts, [a], k);
    }
  }

  /** Every recorded action can be removed (both its keys are present), and
      removing it keeps the scores consistent with the shortened list. */
  lemma RemoveKeepsConsistent(m: seq<Entry>, acts: seq<Action>, index: nat)
    requires Consistent(m, acts) && index < |acts|
    ensures Key(acts[index].owner) in Keys(m) && Key(acts[index].giver) in Keys(m)
    ensures Consistent(UndoAction(m, acts[index]), RemoveAt(acts, index))
  {
    var a := acts[index];
    assert a in acts;
    UndoActionScores(m, a);
    UndoActionTotal(m, a);
    RemoveAtSelfLoss(acts, index);
    forall k ensures Net(RemoveAt(acts, index), k) == Net(acts, k) - Effect(a, k) {
      RemoveAtNet(acts, index, k);
    }
    var rest := RemoveAt(acts, index);
    forall b | b in rest ensures b in acts {
      var j :| 0 <= j < |rest| && rest[j] == b;
      if j >= index {
        assert acts[j + 1] == b;
      }
    }
  }

  /** When no action has giver and owner on the same key, the scores sum to
      0: every point one player gains another loses. */
  lemma ZeroSum(m: seq<Entry>, acts: seq<Action>)
    requires Consistent(m, acts) && NoSelfAction(acts)
    ensures Sum(m) == 0
  {
    NoSelfLoss(acts);
  }

  // ----- the recorder -----

  class HandRecorder {
    /** The session's players, as passed in. */
    const players: seq<Player>
    var scores: seq<Entry>
    var selected: seq<Slot>
    var pointsOnTop: int
    var transactions: seq<Transaction>
    var actions: seq<Action>

    /** The scores are the net effect of the recorded actions, every action's
        keys are in the scores, the total is 0 up to what same-key actions took
        out, and the transactions are those of the current scores. */
    ghost predicate Valid()
      reads this
    {
      && Consistent(scores, actions)
      && transactions == FinalTransactions(scores, players)
    }

    constructor (players: seq<Player>)
      ensures Valid() && this.players == players
      ensures scores == [] && selected == [] && pointsOnTop == 0
      ensures transactions == [] && actions == []
    {
      this.players := players;
      scores, selected, pointsOnTop := [], [], 0;
      transactions, actions := [], [];
    }

    /** `handlePlayerSelect(index, name)` */
    method SelectPlayer(index: nat, name: string)
      requires Valid()
      modifies this`selected
      ensures Valid()
      ensures selected == SelectAt(old(selected), index, name)
    {
      selected := SelectAt(selected, index, name);
    }

    /** `handlePointsOnTopChange(value)` */
    method ChangePointsOnTop(input: PointsInput)
      requires Valid()
      modifies this`pointsOnTop
      ensures Valid()
      ensures pointsOnTop == PointsValue(input)
    {
      pointsOnTop := PointsValue(input);
    }

    /** `getAvailablePlayers(isGiver)` */
    function Available(isGiver: bool): seq<Player>
      reads this
    {
      AvailablePlayers(players, selected, isGiver)
    }

    /** `canAddMoreTransactions` */
    function CanAddMoreTransactions(): bool
      reads this
    {
      |actions| < MaxActions
    }

    /** The add button is enabled: two slots selected, positive points, and
        fewer than `MaxActions` actions recorded. */
    function AddPointsEnabled(): bool
      reads this
    {
      CanAdd() && CanAddMoreTransactions()
    }

    /** `handleAddPoints`, followed by the effect that recomputes the
        transactions. It does nothing unless the selection has length 2 and
        the points are positive; it does not look at the action count. */
    method AddPoints()
      requires Valid()
      modifies this`scores, this`actions, this`selected, this`pointsOnTop, this`transactions
      ensures Valid()
      ensures old(CanAdd()) ==> scores == ApplyAction(old(scores), old(Pending()))
      ensures old(CanAdd()) ==> actions == old(actions) + [old(Pending())]
      ensures old(CanAdd()) ==> selected == [] && pointsOnTop == 0
      ensures !old(CanAdd()) ==>
                && scores == old(scores) && actions == old(actions)
                && selected == old(selected) && pointsOnTop == old(pointsOnTop)
                && transactions == old(transactions)
    {
      if CanAdd() {
        var a := Pending();
        RecordKeepsConsistent(scores, actions, a);
        var newScores := ApplyAction(scores, a);
        var txs := CalculateFinalTransactions(newScores, players);
        scores, actions, selected, pointsOnTop, transactions := newScores, actions + [a], [], 0, txs;
      }
    }

    /** The guard of `handleAddPoints`. */
    predicate CanAdd()
      reads this
    {
      |selected| == 2 && pointsOnTop > 0
    }

    /** The action `handleAddPoints` records from the current selection. */
    function Pending(): Action
      reads this
      requires CanAdd()
    {
      Action(selected[0], selected[1], pointsOnTop)
    }

    /** A press of the add button: a disabled button does nothing, so the
        recorder never holds more than `MaxActions` actions. */
    method PressAddPoints()
      requires Valid()
      modifies this`scores, this`actions, this`selected, this`pointsOnTop, this`transactions
      ensures Valid()
      ensures |actions| == if old(AddPointsEnabled()) then old(|actions|) + 1 else old(|actions|)
      ensures old(|actions|) <= MaxActions ==> |actions| <= MaxActions
      ensures old(AddPointsEnabled()) ==>
                && scores == ApplyAction(old(scores), old(Pending()))
                && actions == old(actions) + [old(Pending())]
                && selected == [] && pointsOnTop == 0
      ensures !old(AddPointsEnabled()) ==>
                && scores == old(scores) && actions == old(actions)
                && selected == old(selected) && pointsOnTop == old(pointsOnTop)
                && transactions == old(transactions)
    {
      if AddPointsEnabled() {
        AddPoints();
      }
    }

    /** `handleRemoveAction(index)`, followed by the recomputation of the
        transactions. */
    method RemoveAction(index: nat)
      requires Valid() && index < |actions|
      modifies this`scores, this`actions, this`transactions
      ensures Valid()
      ensures actions == RemoveAt(old(actions), index)
      ensures scores == UndoAction(old(scores), old(actions[index]))
    {
      var a := actions[index];
      RemoveKeepsConsistent(scores, actions, index);
      actions := RemoveAt(actions, index);
      scores := UndoAction(scores, a);
      transactions := CalculateFinalTransactions(scores, players);
    }

    /** `handleSubmitHand`: returns the finished hand for storage and clears
        the scores, the transactions and the actions. The selection and the
        points field are left as they are. */
    method SubmitHand() returns (hand: Hand)
      requires Valid()
      modifies this`scores, this`transactions, this`actions
      ensures Valid()
      ensures hand == Hand(old(actions), old(scores), old(transactions))
      ensures scores == [] && transactions == [] && actions == []
    {
      hand := Hand(actions, scores, transactions);
      NothingToSettle(players);
      scores, transactions, actions := [], [], [];
    }
  }
}
