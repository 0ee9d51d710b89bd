/**
 * The insertion-ordered `dict[int, int]` that scale_map.py counts into
 * (`defaultdict(int)` in `mapper` and in `reducer`). Python dictionaries
 * remember the order in which keys were first inserted, and that order is
 * what the stable sort of the reducer falls back on for equal counts, so a
 * tally keeps it explicitly beside the counts.
 */
module Counts {

  /** `keys` lists the keys in first-insertion order; `count` holds the value of each. */
  datatype Tally = Tally(keys: seq<int>, count: map<int, nat>)

  predicate Distinct(s: seq<int>)
  {
    forall i, j :: 0 <= i < j < |s| ==> s[i] != s[j]
  }

  /** The dictionary invariant: every key listed once, and listed exactly when it has a count. */
  ghost predicate Valid(t: Tally)
  {
    Distinct(t.keys) && forall k :: k in t.count <==> k in t.keys
  }

  /** A fresh, empty `defaultdict(int)`. */
  const Empty: Tally := Tally([], map[])

  /** `d[k]` of a `defaultdict(int)` read without inserting: 0 for an absent key. */
  function Get(t: Tally, k: int): nat
  {
    if k in t.count then t.count[k] else 0
  }

  /**
   * `d[k] += n` on a `defaultdict(int)`: an absent key is first inserted with 0,
   * at the end of the insertion order; a present key keeps its place.
   */
  function Add(t: Tally, k: int, n: nat): (r: Tally)
    ensures Valid(t) ==> Valid(r)
    ensures Get(r, k) == Get(t, k) + n
    ensures forall j :: j != k ==> Get(r, j) == Get(t, j)
    ensures r.count.Keys == t.count.Keys + {k}
    ensures k in t.count ==> r.keys == t.keys
    ensures k !in t.count ==> r.keys == t.keys + [k]
  {
    if k in t.count then Tally(t.keys, t.count[k := t.count[k] + n])
    else Tally(t.keys + [k], t.count[k := n])
  }

  /** `d.items()`, in insertion order. */
  function Items(t: Tally): (r: seq<(int, nat)>)
    requires Valid(t)
    ensures |r| == |t.keys|
  {
    ItemsOf(t.keys, t.count)
  }

  /** The items of a dictionary are exactly its (key, value) pairs, and no key occurs in two of them. */
  lemma ItemsExact(t: Tally)
    requires Valid(t)
    ensures forall k, c :: (k, c) in Items(t) <==> k in t.count && t.count[k] == c
    ensures forall i, j :: 0 <= i < j < |Items(t)| ==> Items(t)[i].0 != Items(t)[j].0
  {
    var it := Items(t);
    forall k, c | k in t.count && t.count[k] == c
      ensures (k, c) in it
    {
      var i :| 0 <= i < |t.keys| && t.keys[i] == k;
      assert it[i] == (k, c);
    }
  }

  /** The first occurrences of the elements of `s`, in order: the insertion order a dictionary gives to the keys `s` inserts. */
  function Dedup(s: seq<int>): (r: seq<int>)
    ensures Distinct(r)
    ensures forall k :: k in r <==> k in s
  {
    if s == [] then []
    else
      var d := Dedup(s[..|s| - 1]);
      var k := s[|s| - 1];
      assert forall j :: j in s <==> j in s[..|s| - 1] || j == k;
      if k in d then d else d + [k]
  }

  /** The number of distinct keys of a dictionary is the length of its key list. */
  lemma {:induction false} DistinctKeysCount(t: Tally)
    requires Valid(t)
    ensures |t.count| == |t.keys|
  {
    DistinctCard(t.keys);
    assert t.count.Keys == set k | k in t.keys;
  }

  lemma {:induction false} DistinctCard(s: seq<int>)
    requires Distinct(s)
    ensures |set k | k in s| == |s|
  {
    if s != [] {
      var p := s[..|s| - 1];
      DistinctCard(p);
      assert (set k | k in s) == (set k | k in p) + {s[|s| - 1]};
      assert s[|s| - 1] !in p;
    }
  }

  /** The sum of the values held under `keys`. */
  function SumOver(keys: seq<int>, count: map<int, nat>): nat
    requires forall k :: k in keys ==> k in count
  {
    if keys == [] then 0
    else
      var k := keys[|keys| - 1];
      assert k in keys;
      SumOver(keys[..|keys| - 1], count) + count[k]
  }

  /** The sum of all values of a dictionary (`sum(d.values())`). */
  function Total(t: Tally): nat
    requires Valid(t)
  {
    SumOver(t.keys, t.count)
  }

  lemma {:induction false} SumOverUnrelated(keys: seq<int>, count: map<int, nat>, k: int, n: nat)
    requires forall j :: j in keys ==> j in count
    requires k !in keys
    ensures SumOver(keys, count[k := n]) == SumOver(keys, count)
  {
    if keys != [] {
      SumOverUnrelated(keys[..|keys| - 1], count, k, n);
    }
  }

  lemma {:induction false} SumOverBump(keys: seq<int>, count: map<int, nat>, k: int, n: nat)
    requires forall j :: j in keys ==> j in count
    requires Distinct(keys) && k in keys
    ensures SumOver(keys, count[k := count[k] + n]) == SumOver(keys, count) + n
  {
    var p := keys[..|keys| - 1];
    assert Distinct(p);
    if keys[|keys| - 1] == k {
      assert k !in p;
      SumOverUnrelated(p, count, k, count[k] + n);
    } else {
      assert k in p;
      SumOverBump(p, count, k, n);
    }
  }

  /** `d[k] += n` raises the sum of all values by exactly `n`. */
  lemma TotalAdd(t: Tally, k: int, n: nat)
    requires Valid(t)
    ensures Total(Add(t, k, n)) == Total(t) + n
  {
    if k in t.count {
      SumOverBump(t.keys, t.count, k, n);
    } else {
      SumOverUnrelated(t.keys, t.count, k, n);
      assert (t.keys + [k])[..|t.keys|] == t.keys;
    }
  }

  /** Inserting the keys of `seen` and then `k` orders keys as the first occurrences of `seen + [k]`. */
  lemma AddKeepsFirstSeen(t: Tally, k: int, n: nat, seen: seq<int>)
    requires Valid(t) && t.keys == Dedup(seen)
    ensures Add(t, k, n).keys == Dedup(seen + [k])
  {
    assert (seen + [k])[..|seen|] == seen;
  }

  /** A sequence without repeated elements is its own list of first occurrences. */
  lemma {:induction false} DedupDistinct(s: seq<int>)
    requires Distinct(s)
    ensures Dedup(s) == s
  {
    if s != [] {
      DedupDistinct(s[..|s| - 1]);
    }
  }

  /** Two dictionaries with the same key order and the same value for every key are the same dictionary. */
  lemma SameTally(a: Tally, b: Tally)
    requires Valid(a) && Valid(b)
    requires a.keys == b.keys
    requires forall v :: Get(a, v) == Get(b, v)
    ensures a == b
  {
    forall k
      ensures k in a.count <==> k in b.count
    {
      assert k in a.count <==> k in a.keys;
      assert k in b.count <==> k in b.keys;
    }
    assert a.count.Keys == b.count.Keys;
    forall k | k in a.count
      ensures a.count[k] == b.count[k]
    {
      assert Get(a, k) == Get(b, k);
    }
  }

  /** The sum of the values paired with `v` in `ps`. */
  function PairsCount(ps: seq<(int, nat)>, v: int): nat
  {
    if ps == [] then 0
    else
      var e := ps[|ps| - 1];
      PairsCount(ps[..|ps| - 1], v) + (if e.0 == v then e.1 else 0)
  }

  /** The keys of `ps`, in order. */
  function PairKeys(ps: seq<(int, nat)>): (ks: seq<int>)
    ensures |ks| == |ps|
    ensures forall i :: 0 <= i < |ps| ==> ks[i] == ps[i].0
  {
    if ps == [] then [] else PairKeys(ps[..|ps| - 1]) + [ps[|ps| - 1].0]
  }

  /**
   * `for k, n in ps: d[k] += n`, applied to `t`: the invariant is kept, and
   * each key gains the sum of the values paired with it.
   */
  function AddAll(t: Tally, ps: seq<(int, nat)>): (r: Tally)
    ensures Valid(t) ==> Valid(r)
    ensures forall v :: Get(r, v) == Get(t, v) + PairsCount(ps, v)
  {
    if ps == [] then t
    else
      var e := ps[|ps| - 1];
      Add(AddAll(t, ps[..|ps| - 1]), e.0, e.1)
  }

  /** Adding a run of pairs appends the keys not seen before, in the order of the run. */
  lemma {:induction false} AddAllSpec(t: Tally, ps: seq<(int, nat)>, seen: seq<int>)
    requires Valid(t) && t.keys == Dedup(seen)
    ensures AddAll(t, ps).keys == Dedup(seen + PairKeys(ps))
  {
    if ps == [] {
      assert seen + PairKeys(ps) == seen;
    } else {
      var p := ps[..|ps| - 1];
      var e := ps[|ps| - 1];
      AddAllSpec(t, p, seen);
      assert seen + PairKeys(ps) == (seen + PairKeys(p)) + [e.0];
      AddKeepsFirstSeen(AddAll(t, p), e.0, e.1, seen + PairKeys(p));
    }
  }

  /** Adding the items of a dictionary, in order, to an empty one rebuilds that dictionary. */
  lemma ItemsRebuild(t: Tally)
    requires Valid(t)
    ensures AddAll(Empty, Items(t)) == t
  {
    RebuildKeys(t);
    RebuildCounts(t);
    SameTally(AddAll(Empty, Items(t)), t);
  }

  lemma RebuildKeys(t: Tally)
    requires Valid(t)
    ensures Valid(AddAll(Empty, Items(t)))
    ensures AddAll(Empty, Items(t)).keys == t.keys
  {
    var it := Items(t);
    AddAllSpec(Empty, it, []);
    assert [] + PairKeys(it) == t.keys;
    DedupDistinct(t.keys);
  }

  lemma RebuildCounts(t: Tally)
    requires Valid(t)
    ensures forall v :: Get(AddAll(Empty, Items(t)), v) == Get(t, v)
  {
    var it := Items(t);
    AddAllSpec(Empty, it, []);
    forall v
      ensures Get(AddAll(Empty, it), v) == Get(t, v)
    {
      ItemsCount(t.keys, t.count, v);
    }
  }

  /** The items under `keys`, in order, built one key at a time. */
  function ItemsOf(keys: seq<int>, count: map<int, nat>): (r: seq<(int, nat)>)
    requires forall k :: k in keys ==> k in count
    ensures |r| == |keys|
    ensures forall i :: 0 <= i < |keys| ==> r[i].0 == keys[i] && r[i].0 in count && r[i].1 == count[r[i].0]
  {
    if keys == [] then []
    else
      var k := keys[|keys| - 1];
      assert k in keys;
      ItemsOf(keys[..|keys| - 1], count) + [(k, count[k])]
  }

  lemma {:induction false} ItemsCount(keys: seq<int>, count: map<int, nat>, v: int)
    requires forall k :: k in keys ==> k in count
    requires Distinct(keys)
    ensures PairsCount(ItemsOf(keys, count), v) == if v in keys then count[v] else 0
  {
    if keys != [] {
      var p := keys[..|keys| - 1];
      var k := keys[|keys| - 1];
      assert Distinct(p);
      ItemsCount(p, count, v);
      var it := ItemsOf(keys, count);
      assert it[..|it| - 1] == ItemsOf(p, count);
      assert v in keys <==> v in p || v == k;
      assert k == v ==> v !in p;
    }
  }
}
