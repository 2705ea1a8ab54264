/** The per-hand scores object of the hand recorder: a JavaScript object from
    player name to net score. It is modelled as a list of entries in key
    insertion order, which is the order `Object.entries` reports string keys in
    and so the order the settlement rule sees before it sorts. */
module Scores {

  /** One property of the scores object. */
  datatype Entry = Entry(name: string, score: int)

  /** The names that are keys of the object. */
  function Keys(m: seq<Entry>): set<string>
  {
    if m == [] then {} else {m[0].name} + Keys(m[1..])
  }

  /** An object has each key at most once. */
  predicate Keyed(m: seq<Entry>)
  {
    m == [] || (m[0].name !in Keys(m[1..]) && Keyed(m[1..]))
  }

  /** `m[k] || 0`: the score stored under `k`, or 0 when `k` is absent. */
  function Get(m: seq<Entry>, k: string): int
  {
    if m == [] then 0
    else if m[0].name == k then m[0].score
    else Get(m[1..], k)
  }

  /** `{...m, [k]: v}`: an existing key keeps its place and takes the new value,
      a new key is appended at the end. */
  function Update(m: seq<Entry>, k: string, v: int): seq<Entry>
  {
    if m == [] then [Entry(k, v)]
    else if m[0].name == k then [Entry(k, v)] + m[1..]
    else [m[0]] + Update(m[1..], k, v)
  }

  /** The sum of all scores in the object. */
  function Sum(m: seq<Entry>): int
  {
    if m == [] then 0 else m[0].score + Sum(m[1..])
  }

  /** Every entry's name is a key. */
  lemma {:induction false} EntryKey(m: seq<Entry>, e: Entry)
    requires e in m
    ensures e.name in Keys(m)
  {
    if m[0] != e {
      assert e in m[1..];
      EntryKey(m[1..], e);
    }
  }

  /** Reading a key that is absent gives 0. */
  lemma {:induction false} GetAbsent(m: seq<Entry>, k: string)
    requires k !in Keys(m)
    ensures Get(m, k) == 0
  {
    if m != [] {
      GetAbsent(m[1..], k);
    }
  }

  /** In an object with unique keys, an entry's score is what a lookup of its
      name returns. */
  lemma {:induction false} GetEntry(m: seq<Entry>, e: Entry)
    requires Keyed(m) && e in m
    ensures Get(m, e.name) == e.score
  {
    if m[0] != e {
      assert e in m[1..];
      EntryKey(m[1..], e);
      GetEntry(m[1..], e);
    }
  }

  /** After writing `v` under `k`, reading `k` gives `v` and every other key
      reads as before. */
  lemma {:induction false} UpdateGet(m: seq<Entry>, k: string, v: int)
    ensures forall j :: Get(Update(m, k, v), j) == if j == k then v else Get(m, j)
  {
    if m != [] && m[0].name != k {
      UpdateGet(m[1..], k, v);
    }
  }

  /** Writing under `k` adds `k` to the keys, and keeps keys unique. */
  lemma {:induction false} UpdateKeys(m: seq<Entry>, k: string, v: int)
    ensures Keys(Update(m, k, v)) == Keys(m) + {k}
    ensures Keyed(m) ==> Keyed(Update(m, k, v))
  {
    if m != [] && m[0].name != k {
      UpdateKeys(m[1..], k, v);
    }
  }

  /** Writing `v` under `k` changes the total by `v` minus the value `k` had
      (0 when it was absent). */
  lemma {:induction false} SumUpdate(m: seq<Entry>, k: string, v: int)
    requires Keyed(m)
    ensures Sum(Update(m, k, v)) == Sum(m) - Get(m, k) + v
  {
    if m == [] {
    } else if m[0].name == k {
      GetAbsent(m[1..], k);
    } else {
      SumUpdate(m[1..], k, v);
    }
  }
}
