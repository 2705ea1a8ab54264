/** The settlement rule of the hand recorder (`calculateFinalTransactions`):
    keep the score entries of the session's players, sort them by score from
    highest to lowest, and for every adjacent pair emit a payment from the
    lower to the higher player of `min(higher, -lower)` points when that is
    positive. Only the pair where the positive scores meet the negative ones
    can emit, so at most one payment is ever produced. */
module Settlement {
  import opened Scores

  datatype Player = Player(name: string)

  /** A settlement instruction: `from` pays `to` the given points. */
  datatype Transaction = Transaction(from: string, to: string, points: int)

  function Min(a: int, b: int): int
  {
    if a <= b then a else b
  }

  /** The entries whose name is one of `players`, in their original order. */
  function Known(m: seq<Entry>, players: seq<Player>): seq<Entry>
  {
    if m == [] then []
    else if Player(m[0].name) in players then [m[0]] + Known(m[1..], players)
    else Known(m[1..], players)
  }

  predicate SortedDesc(s: seq<Entry>)
  {
    forall i, j :: 0 <= i < j < |s| ==> s[i].score >= s[j].score
  }

  /** Places `e` before the first entry whose score is not higher, so that `e`
      stays ahead of later entries with the same score. */
  function Insert(e: Entry, s: seq<Entry>): (r: seq<Entry>)
    requires SortedDesc(s)
    ensures SortedDesc(r)
    ensures forall x :: x in r <==> x == e || x in s
  {
    if s == [] || s[0].score <= e.score then [e] + s
    else
      var t := Insert(e, s[1..]);
      assert forall x :: x in t ==> s[0].score >= x.score;
      assert s == [s[0]] + s[1..];
      [s[0]] + t
  }

  /** `sort((a, b) => b - a)`: a stable sort by score, highest first. */
  function SortDesc(s: seq<Entry>): (r: seq<Entry>)
    ensures SortedDesc(r)
    ensures forall x :: x in r <==> x in s
  {
    if s == [] then []
    else
      assert s == [s[0]] + s[1..];
      Insert(s[0], SortDesc(s[1..]))
  }

  /** Filtering keeps exactly the entries of session players. */
  lemma {:induction false} KnownMembers(m: seq<Entry>, players: seq<Player>)
    ensures forall e :: e in Known(m, players) <==> e in m && Player(e.name) in players
  {
    if m != [] {
      KnownMembers(m[1..], players);
      assert m == [m[0]] + m[1..];
    }
  }

  /** Filtering keeps only keys of the object, and keeps them unique. */
  lemma {:induction false} KnownKeys(m: seq<Entry>, players: seq<Player>)
    ensures Keys(Known(m, players)) <= Keys(m)
    ensures Keyed(m) ==> Keyed(Known(m, players))
  {
    if m != [] {
      KnownKeys(m[1..], players);
    }
  }

  /** Inserting adds exactly one occurrence of `e`. */
  lemma {:induction false} InsertPermutes(e: Entry, s: seq<Entry>)
    requires SortedDesc(s)
    ensures multiset(Insert(e, s)) == multiset(s) + multiset{e}
  {
    if s != [] && s[0].score > e.score {
      InsertPermutes(e, s[1..]);
      assert s == [s[0]] + s[1..];
    }
  }

  /** The sort is a permutation: every entry is kept exactly as often as it
      occurs. */
  lemma {:induction false} SortDescPermutes(s: seq<Entry>)
    ensures multiset(SortDesc(s)) == multiset(s)
  {
    if s != [] {
      SortDescPermutes(s[1..]);
      InsertPermutes(s[0], SortDesc(s[1..]));
      assert s == [s[0]] + s[1..];
    }
  }

  /** The entries with score `v`, in their order in `s`. */
  function WithScore(s: seq<Entry>, v: int): seq<Entry>
  {
    if s == [] then [] else (if s[0].score == v then [s[0]] else []) + WithScore(s[1..], v)
  }

  lemma {:induction false} WithScoreConcat(s: seq<Entry>, t: seq<Entry>, v: int)
    ensures WithScore(s + t, v) == WithScore(s, v) + WithScore(t, v)
  {
    if s == [] {
      assert s + t == t;
    } else {
      var head := if s[0].score == v then [s[0]] else [];
      assert (s + t)[0] == s[0] && (s + t)[1..] == s[1..] + t;
      assert WithScore(s + t, v) == head + WithScore(s[1..] + t, v);
      WithScoreConcat(s[1..], t, v);
      assert WithScore(s, v) == head + WithScore(s[1..], v);
      assert head + (WithScore(s[1..], v) + WithScore(t, v))
          == (head + WithScore(s[1..], v)) + WithScore(t, v);
    }
  }

  lemma {:induction false} WithScoreNone(s: seq<Entry>, v: int)
    requires forall i :: 0 <= i < |s| ==> s[i].score != v
    ensures WithScore(s, v) == []
  {
    if s != [] {
      WithScoreNone(s[1..], v);
    }
  }

  /** Insertion puts `e` ahead of every entry with the same score. */
  lemma {:induction false} InsertWithScore(e: Entry, s: seq<Entry>, v: int)
    requires SortedDesc(s)
    ensures WithScore(Insert(e, s), v) == (if e.score == v then [e] else []) + WithScore(s, v)
  {
    if s == [] || s[0].score <= e.score {
      assert Insert(e, s) == [e] + s;
      assert ([e] + s)[0] == e && ([e] + s)[1..] == s;
    } else {
      var t := Insert(e, s[1..]);
      assert Insert(e, s) == [s[0]] + t;
      assert ([s[0]] + t)[0] == s[0] && ([s[0]] + t)[1..] == t;
      InsertWithScore(e, s[1..], v);
      var head := if s[0].score == v then [s[0]] else [];
      assert WithScore(s, v) == head + WithScore(s[1..], v);
      if e.score == v {
        assert head == [];
      }
    }
  }

  /** The sort is stable: the entries with any one score keep the order they
      have in the scores object. */
  lemma {:induction false} SortDescStable(s: seq<Entry>, v: int)
    ensures WithScore(SortDesc(s), v) == WithScore(s, v)
  {
    if s != [] {
      SortDescStable(s[1..], v);
      InsertWithScore(s[0], SortDesc(s[1..]), v);
    }
  }

  lemma SortDescStableAll(s: seq<Entry>)
    ensures forall v :: WithScore(SortDesc(s), v) == WithScore(s, v)
  {
    forall v ensures WithScore(SortDesc(s), v) == WithScore(s, v) {
      SortDescStable(s, v);
    }
  }

  /** The pair at positions `i`, `i + 1` is where a positive score is followed
      by a negative one. */
  predicate IsBoundary(s: seq<Entry>, i: nat)
  {
    i + 1 < |s| && s[i].score > 0 && s[i + 1].score < 0
  }

  /** The payment the pair at a boundary emits. */
  function BoundaryPayment(s: seq<Entry>, i: nat): Transaction
    requires i + 1 < |s|
  {
    Transaction(s[i + 1].name, s[i].name, Min(s[i].score, -s[i + 1].score))
  }

  /** What one iteration of the loop pushes for the pair at `i`, `i + 1`. */
  function Step(s: seq<Entry>, i: nat): seq<Transaction>
    requires i + 1 < |s|
  {
    var points := Min(s[i].score, -s[i + 1].score);
    if points > 0 then [Transaction(s[i + 1].name, s[i].name, points)] else []
  }

  /** The payments pushed by the first `k` iterations of the loop. */
  function Emitted(s: seq<Entry>, k: nat): seq<Transaction>
    requires k == 0 || k < |s|
  {
    if k == 0 then [] else Emitted(s, k - 1) + Step(s, k - 1)
  }

  /** The number of iterations of `for (i = 0; i < n - 1; i++)`. */
  function Rounds(s: seq<Entry>): nat
  {
    if |s| == 0 then 0 else |s| - 1
  }

  /** The transactions the recorder shows for the given scores. */
  function FinalTransactions(m: seq<Entry>, players: seq<Player>): seq<Transaction>
  {
    var sorted := SortDesc(Known(m, players));
    Emitted(sorted, Rounds(sorted))
  }

  /** `calculateFinalTransactions`: filter the scores to the session's
      players, sort them, then walk the adjacent pairs. */
  method CalculateFinalTransactions(scores: seq<Entry>, players: seq<Player>)
    returns (txs: seq<Transaction>)
    ensures txs == FinalTransactions(scores, players)
  {
    var sorted := SortDesc(Known(scores, players));
    txs := SettlePairs(sorted);
  }

  /** The index loop of `calculateFinalTransactions` over the sorted entries:
      each adjacent pair pushes a payment from the lower to the higher entry
      of `min(higher, -lower)` points when that is positive. */
  method SettlePairs(sorted: seq<Entry>) returns (txs: seq<Transaction>)
    ensures txs == Emitted(sorted, Rounds(sorted))
  {
    txs := [];
    var i := 0;
    while i < |sorted| - 1
      invariant 0 <= i <= Rounds(sorted)
      invariant txs == Emitted(sorted, i)
    {
      var fromPlayer, fromScore := sorted[i].name, sorted[i].score;
      var toPlayer, toScore := sorted[i + 1].name, sorted[i + 1].score;
      var points := Min(fromScore, -toScore);
      if points > 0 {
        txs := txs + [Transaction(toPlayer, fromPlayer, points)];
      }
      i := i + 1;
    }
  }

  /** A pair emits exactly when it is a boundary. */
  lemma StepAtBoundary(s: seq<Entry>, i: nat)
    requires i + 1 < |s|
    ensures Step(s, i) == if IsBoundary(s, i) then [BoundaryPayment(s, i)] else []
  {
  }

  /** Without a boundary among the first `k` pairs nothing is emitted. */
  lemma {:induction false} EmittedNone(s: seq<Entry>, k: nat)
    requires k == 0 || k < |s|
    requires forall i: nat :: i < k ==> !IsBoundary(s, i)
    ensures Emitted(s, k) == []
  {
    if k > 0 {
      EmittedNone(s, k - 1);
      StepAtBoundary(s, k - 1);
    }
  }

  /** With exactly one boundary `b` among the first `k` pairs, its payment is
      the only one emitted. */
  lemma {:induction false} EmittedOne(s: seq<Entry>, k: nat, b: nat)
    requires b < k < |s| && IsBoundary(s, b)
    requires forall i: nat :: i < k && i != b ==> !IsBoundary(s, i)
    ensures Emitted(s, k) == [BoundaryPayment(s, b)]
  {
    StepAtBoundary(s, k - 1);
    if k - 1 == b {
      EmittedNone(s, b);
    } else {
      EmittedOne(s, k - 1, b);
    }
  }

  /** A sorted list has at most one boundary. */
  lemma BoundaryUnique(s: seq<Entry>, b: nat, c: nat)
    requires SortedDesc(s) && IsBoundary(s, b) && IsBoundary(s, c)
    ensures b == c
  {
  }

  /** Between a positive score and a later negative one, with no zero in
      between, there is a boundary. */
  lemma {:induction false} BoundaryBetween(s: seq<Entry>, i: nat, j: nat) returns (b: nat)
    requires i < j < |s| && s[i].score > 0 && s[j].score < 0
    requires forall z :: i <= z <= j ==> s[z].score != 0
    ensures i <= b < j && IsBoundary(s, b)
    decreases j - i
  {
    if s[i + 1].score < 0 {
      b := i;
    } else {
      b := BoundaryBetween(s, i + 1, j);
    }
  }

  predicate HasPositive(s: seq<Entry>)
  {
    exists e :: e in s && e.score > 0
  }

  predicate HasNegative(s: seq<Entry>)
  {
    exists e :: e in s && e.score < 0
  }

  predicate HasZero(s: seq<Entry>)
  {
    exists e :: e in s && e.score == 0
  }

  /** A sorted list has a boundary exactly when it holds a positive and a
      negative score and no zero, which would sit between them. */
  lemma SortedBoundary(s: seq<Entry>) returns (b: nat)
    requires SortedDesc(s) && HasPositive(s) && HasNegative(s) && !HasZero(s)
    ensures IsBoundary(s, b)
    ensures forall j :: 0 <= j < |s| && s[j].score > 0 ==> j <= b
    ensures forall j :: 0 <= j < |s| && s[j].score < 0 ==> b + 1 <= j
  {
    var p :| p in s && p.score > 0;
    var n :| n in s && n.score < 0;
    var i :| 0 <= i < |s| && s[i] == p;
    var j :| 0 <= j < |s| && s[j] == n;
    forall z | i <= z <= j ensures s[z].score != 0 {
      assert s[z] in s;
    }
    b := BoundaryBetween(s, i, j);
  }

  lemma SortedBoundaryWitness(s: seq<Entry>, b: nat)
    requires SortedDesc(s) && IsBoundary(s, b)
    ensures HasPositive(s) && HasNegative(s) && !HasZero(s)
  {
    assert s[b] in s && s[b + 1] in s;
    forall e | e in s ensures e.score != 0 {
      var k :| 0 <= k < |s| && s[k] == e;
    }
  }

  /** The loop over a sorted list emits at most one payment, exactly when the
      list holds a positive score, a negative score and no zero; the payment
      is the one at the boundary `b`, between the last positive and the first
      negative entry. */
  lemma SortedRule(s: seq<Entry>) returns (b: nat)
    requires SortedDesc(s)
    ensures var r := Emitted(s, Rounds(s));
            && |r| <= 1
            && (r != [] <==> HasPositive(s) && HasNegative(s) && !HasZero(s))
            && (r != [] ==>
                  && IsBoundary(s, b) && r == [BoundaryPayment(s, b)]
                  && (forall j :: 0 <= j < |s| && s[j].score > 0 ==> j <= b)
                  && (forall j :: 0 <= j < |s| && s[j].score < 0 ==> b + 1 <= j))
  {
    if HasPositive(s) && HasNegative(s) && !HasZero(s) {
      b := SortedBoundary(s);
      forall c: nat | c < Rounds(s) && c != b ensures !IsBoundary(s, c) {
        if IsBoundary(s, c) {
          BoundaryUnique(s, b, c);
        }
      }
      EmittedOne(s, Rounds(s), b);
    } else {
      b := 0;
      forall c: nat | c < Rounds(s) ensures !IsBoundary(s, c) {
        if IsBoundary(s, c) {
          SortedBoundaryWitness(s, c);
        }
      }
      EmittedNone(s, Rounds(s));
    }
  }

  /** Two lists with the same members agree on which signs occur. */
  lemma SameSigns(s: seq<Entry>, t: seq<Entry>)
    requires forall x :: x in s <==> x in t
    ensures HasPositive(s) == HasPositive(t)
    ensures HasNegative(s) == HasNegative(t)
    ensures HasZero(s) == HasZero(t)
  {
  }

  /** The settlement rule, stated without reference to the sort: at most one
      payment is emitted, and one is emitted exactly when some session player
      has a positive score, some has a negative score and none has a score of
      0. In particular nothing is emitted when all scores are at least 0 or
      all are at most 0. */
  lemma FinalTransactionsCount(m: seq<Entry>, players: seq<Player>)
    ensures var r := FinalTransactions(m, players);
            var known := Known(m, players);
            && |r| <= 1
            && (r != [] <==> HasPositive(known) && HasNegative(known) && !HasZero(known))
  {
    var known := Known(m, players);
    var s := SortDesc(known);
    var _ := SortedRule(s);
    SameSigns(s, known);
  }

  /** `t` is a payment from a session player with the negative score closest
      to 0 to a session player with the smallest positive score, for the
      smaller of the two amounts. */
  predicate SmallestGap(m: seq<Entry>, known: seq<Entry>, t: Transaction)
  {
    && Entry(t.to, Get(m, t.to)) in known
    && Entry(t.from, Get(m, t.from)) in known
    && Get(m, t.to) > 0 && Get(m, t.from) < 0
    && t.points == Min(Get(m, t.to), -Get(m, t.from))
    && (forall e :: e in known && e.score > 0 ==> Get(m, t.to) <= e.score)
    && (forall e :: e in known && e.score < 0 ==> e.score <= Get(m, t.from))
  }

  /** At the boundary of a sorted list sit the smallest positive and the
      largest negative score. */
  lemma BoundaryExtremes(s: seq<Entry>, b: nat)
    requires SortedDesc(s) && IsBoundary(s, b)
    ensures forall e :: e in s && e.score > 0 ==> s[b].score <= e.score
    ensures forall e :: e in s && e.score < 0 ==> e.score <= s[b + 1].score
  {
    forall e | e in s && e.score > 0 ensures s[b].score <= e.score {
      var j :| 0 <= j < |s| && s[j] == e;
    }
    forall e | e in s && e.score < 0 ensures e.score <= s[b + 1].score {
      var j :| 0 <= j < |s| && s[j] == e;
    }
  }

  /** The payment at the boundary of a sorted arrangement `s` of entries of
      `m` fills the smallest gap. */
  lemma BoundarySmallestGap(m: seq<Entry>, known: seq<Entry>, s: seq<Entry>, b: nat)
    requires Keyed(m) && SortedDesc(s) && IsBoundary(s, b)
    requires forall x :: x in known ==> x in m
    requires forall x :: x in s <==> x in known
    ensures SmallestGap(m, known, BoundaryPayment(s, b))
  {
    var hi, lo := s[b], s[b + 1];
    assert hi in s && lo in s;
    GetEntry(m, hi);
    GetEntry(m, lo);
    BoundaryExtremes(s, b);
  }

  /** The payment emitted over a sorted arrangement `s` of entries of `m`. */
  lemma SortedPayment(m: seq<Entry>, known: seq<Entry>, s: seq<Entry>)
    requires Keyed(m) && SortedDesc(s)
    requires forall x :: x in known ==> x in m
    requires forall x :: x in s <==> x in known
    ensures var r := Emitted(s, Rounds(s));
            r != [] ==> SmallestGap(m, known, r[0])
  {
    var b := SortedRule(s);
    if Emitted(s, Rounds(s)) != [] {
      BoundarySmallestGap(m, known, s, b);
    }
  }

  /** The payment, when there is one, goes from a session player with the
      negative score closest to 0 to a session player with the smallest
      positive score, for the smaller of the two amounts. */
  lemma FinalTransactionsPayment(m: seq<Entry>, players: seq<Player>)
    requires Keyed(m)
    ensures var r := FinalTransactions(m, players);
            r != [] ==> SmallestGap(m, Known(m, players), r[0])
  {
    var known := Known(m, players);
    KnownMembers(m, players);
    SortedPayment(m, known, SortDesc(known));
  }

  /** At the boundary of a sorted list sit the last entry with the smallest
      positive score and the first entry with the largest negative score. */
  lemma BoundaryTies(s: seq<Entry>, b: nat)
    requires SortedDesc(s) && IsBoundary(s, b)
    ensures var hi := WithScore(s, s[b].score); hi != [] && hi[|hi| - 1] == s[b]
    ensures var lo := WithScore(s, s[b + 1].score); lo != [] && lo[0] == s[b + 1]
  {
    var front, back := s[..b + 1], s[b + 1..];
    assert s == front + back;
    assert front == s[..b] + [s[b]];
    assert back[0] == s[b + 1];
    WithScoreConcat(front, back, s[b].score);
    WithScoreConcat(s[..b], [s[b]], s[b].score);
    WithScoreNone(back, s[b].score);
    WithScoreConcat(front, back, s[b + 1].score);
    WithScoreNone(front, s[b + 1].score);
  }

  /** Over a sorted arrangement `s` of the entries `known` that keeps, for
      every score, the order of the entries with that score, the payment goes
      to the last entry with the payee's score and comes from the first entry
      with the payer's score. */
  lemma SortedTies(m: seq<Entry>, known: seq<Entry>, s: seq<Entry>)
    requires Keyed(m) && SortedDesc(s)
    requires forall x :: x in s ==> x in m
    requires forall v :: WithScore(s, v) == WithScore(known, v)
    ensures var r := Emitted(s, Rounds(s));
            r != [] ==>
              && (var hi := WithScore(known, Get(m, r[0].to)); hi != [] && hi[|hi| - 1].name == r[0].to)
              && (var lo := WithScore(known, Get(m, r[0].from)); lo != [] && lo[0].name == r[0].from)
  {
    var b := SortedRule(s);
    if Emitted(s, Rounds(s)) != [] {
      assert s[b] in s && s[b + 1] in s;
      GetEntry(m, s[b]);
      GetEntry(m, s[b + 1]);
      BoundaryTies(s, b);
      assert WithScore(s, s[b].score) == WithScore(known, s[b].score);
      assert WithScore(s, s[b + 1].score) == WithScore(known, s[b + 1].score);
    }
  }

  /** On ties the order of the keys decides: the payment goes to the session
      player whose key comes last among those with the payee's score, and
      comes from the one whose key comes first among those with the payer's
      score. */
  lemma FinalTransactionsTies(m: seq<Entry>, players: seq<Player>)
    requires Keyed(m)
    ensures var r := FinalTransactions(m, players);
            var known := Known(m, players);
            r != [] ==>
              && (var hi := WithScore(known, Get(m, r[0].to)); hi != [] && hi[|hi| - 1].name == r[0].to)
              && (var lo := WithScore(known, Get(m, r[0].from)); lo != [] && lo[0].name == r[0].from)
  {
    var known := Known(m, players);
    KnownMembers(m, players);
    SortDescStableAll(known);
    SortedTies(m, known, SortDesc(known));
  }

  /** Two players tied on 5 points ahead of one at -3: the payment goes to
      the tied player whose key comes second. */
  lemma TiesPayLast(a: string, b: string, c: string)
    ensures FinalTransactions([Entry(a, 5), Entry(b, 5), Entry(c, -3)],
                              [Player(a), Player(b), Player(c)])
            == [Transaction(c, b, 3)]
  {
    var ea, eb, ec := Entry(a, 5), Entry(b, 5), Entry(c, -3);
    var m := [ea, eb, ec];
    KnownAll(m, [Player(a), Player(b), Player(c)]);
    assert m[1..] == [eb, ec] && m[1..][1..] == [ec] && [ec][1..] == [];
    assert SortDesc([ec]) == [ec];
    assert SortDesc([eb, ec]) == [eb, ec];
    assert SortDesc(m) == [ea, eb, ec];
    EmittedThree([ea, eb, ec]);
  }

  /** When every entry belongs to a session player, filtering keeps them
      all. */
  lemma {:induction false} KnownAll(m: seq<Entry>, players: seq<Player>)
    requires forall e :: e in m ==> Player(e.name) in players
    ensures Known(m, players) == m
  {
    if m != [] {
      assert m[0] in m;
      assert forall e :: e in m[1..] ==> e in m;
      KnownAll(m[1..], players);
    }
  }

  /** Over three entries the loop runs twice. */
  lemma EmittedThree(s: seq<Entry>)
    requires |s| == 3
    ensures Emitted(s, Rounds(s)) == Step(s, 0) + Step(s, 1)
  {
    assert Emitted(s, 1) == Step(s, 0);
  }

  /** The first of three entries, when it is the lowest and the other two are
      in order, moves to the end. */
  lemma SortLowestFirst(a: Entry, b: Entry, c: Entry)
    requires b.score >= c.score > a.score
    ensures SortDesc([a, b, c]) == [b, c, a]
  {
    var m := [a, b, c];
    assert m[1..] == [b, c] && m[1..][1..] == [c] && [c][1..] == [];
    assert SortDesc([c]) == [c];
    assert SortDesc([b, c]) == [b, c];
    assert Insert(a, [c]) == [c, a];
  }

  /** Three players x: -10, y: 15, z: -5 (in that key order) sort as y, z, x
      and settle with the single payment z -> y of 5; x's debt is not
      settled. */
  lemma ThreePlayers(x: string, y: string, z: string)
    ensures FinalTransactions([Entry(x, -10), Entry(y, 15), Entry(z, -5)],
                              [Player(x), Player(y), Player(z)])
            == [Transaction(z, y, 5)]
  {
    var ex, ey, ez := Entry(x, -10), Entry(y, 15), Entry(z, -5);
    var m := [ex, ey, ez];
    KnownAll(m, [Player(x), Player(y), Player(z)]);
    SortLowestFirst(ex, ey, ez);
    EmittedThree([ey, ez, ex]);
  }

  /** A player at 0 sits between the winners and the losers, so x: 5, y: 0,
      z: -5 settle with no payment at all. */
  lemma ZeroBlocksPayment(x: string, y: string, z: string)
    ensures FinalTransactions([Entry(x, 5), Entry(y, 0), Entry(z, -5)],
                              [Player(x), Player(y), Player(z)])
            == []
  {
    var m := [Entry(x, 5), Entry(y, 0), Entry(z, -5)];
    var players := [Player(x), Player(y), Player(z)];
    KnownMembers(m, players);
    assert Entry(y, 0) in Known(m, players);
    FinalTransactionsCount(m, players);
  }
}
