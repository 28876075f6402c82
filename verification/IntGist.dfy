/** The gist__int_ops opclass: keys, searches and page splits over sorted int sets. */
module IntGist {
  import opened QueryEval
  import opened RangeKeys
  import opened RangeKeysOptimal
  import opened IntSets

  // strategy numbers
  const OVERLAP := 3
  const SAME := 6
  const CONTAINS := 7
  const CONTAINED_BY := 8
  const OLD_CONTAINS := 13
  const OLD_CONTAINED_BY := 14
  const BOOLEAN := 20

  datatype Query = Array(arr: seq<int>) | Bool(items: seq<Item>)

  /** A query fits its strategy: a linked boolean query, or a sorted and unique-ified array. */
  predicate WellFormed(q: Query, strategy: nat) {
    if strategy == BOOLEAN then q.Bool? && |q.items| > 0 && Linked(q.items) else q.Array? && Increasing(q.arr)
  }

  /** What g_int_consistent answers, in terms of sets. */
  predicate Consistent(key: seq<int>, leaf: bool, q: Query, strategy: nat)
    requires WellFormed(q, strategy)
  {
    if strategy == BOOLEAN then Execute(q.items, |q.items| - 1, leaf, Among(key))
    else if strategy == OVERLAP then Elems(key) * Elems(q.arr) != {}
    else if strategy == SAME then (if leaf then key == q.arr else Elems(q.arr) <= Elems(key))
    else if strategy == CONTAINS || strategy == OLD_CONTAINS then Elems(q.arr) <= Elems(key)
    else if strategy == CONTAINED_BY || strategy == OLD_CONTAINED_BY then leaf ==> Elems(key) <= Elems(q.arr)
    else false
  }

  method GIntSame(a: seq<int>, b: seq<int>) returns (result: bool)
    ensures result <==> a == b
  {
    var n := |a|;
    if n != |b| { return false; }
    var i := 0;
    while i < n
      invariant 0 <= i <= n && forall k | 0 <= k < i :: a[k] == b[k]
    {
      if a[i] != b[i] { return false; }
      i := i + 1;
    }
    result := true;
  }

  method GIntConsistent(key: seq<int>, leaf: bool, q: Query, strategy: nat) returns (r: bool)
    requires Increasing(key) && WellFormed(q, strategy)
    ensures r <==> Consistent(key, leaf, q, strategy)
  {
    if strategy == BOOLEAN {
      return Execute(q.items, |q.items| - 1, leaf, Among(key));
    }
    if strategy == OVERLAP {
      r := InnerIntOverlap(key, q.arr);
    } else if strategy == SAME {
      if leaf { r := GIntSame(key, q.arr); } else { r := InnerIntContains(key, q.arr); }
    } else if strategy == CONTAINS || strategy == OLD_CONTAINS {
      r := InnerIntContains(key, q.arr);
    } else if strategy == CONTAINED_BY || strategy == OLD_CONTAINED_BY {
      if leaf { r := InnerIntContains(q.arr, key); } else { r := true; }
    } else {
      r := false;
    }
  }

  // ----- keys -----

  function Concat(entries: seq<seq<int>>): seq<int> {
    if |entries| == 0 then [] else Concat(entries[..|entries| - 1]) + entries[|entries| - 1]
  }

  /** `s` is a sorted rearrangement of `t`, as qsort leaves it. */
  ghost predicate SortOf(s: seq<int>, t: seq<int>) { Ascending(s) && multiset(s) == multiset(t) }

  lemma SortOfElems(s: seq<int>, t: seq<int>)
    requires SortOf(s, t)
    ensures Elems(s) == Elems(t)
  {
    forall v ensures v in s <==> v in t {
      assert v in multiset(s) <==> v in s;
      assert v in multiset(t) <==> v in t;
    }
  }

  lemma {:induction false} ConcatIs(entries: seq<seq<int>>)
    ensures forall v :: v in Concat(entries) <==> InSome(v, entries)
  {
    if |entries| > 0 {
      var init := entries[..|entries| - 1];
      ConcatIs(init);
      forall v ensures v in Concat(entries) <==> InSome(v, entries) {
        assert v in Concat(entries) <==> v in Concat(init) || v in entries[|init|];
        if InSome(v, init) {
          var i :| 0 <= i < |init| && v in init[i];
          assert v in entries[i];
        }
        if InSome(v, entries) {
          var i :| 0 <= i < |entries| && v in entries[i];
          assert i < |init| ==> v in init[i];
        }
      }
    }
  }

  predicate InSome(v: int, entries: seq<seq<int>>) { exists i :: 0 <= i < |entries| && v in entries[i] }

  /** A sorted key with exactly the integers of the entries. */
  ghost predicate IsUnion(u: seq<int>, entries: seq<seq<int>>) {
    Increasing(u) && forall v :: v in u <==> InSome(v, entries)
  }

  /** g_int_union: concatenate, sort (`sorted` is qsort's result), remove repetitions. */
  method GIntUnion(entries: seq<seq<int>>, sorted: seq<int>) returns (r: seq<int>)
    requires SortOf(sorted, Concat(entries))
    ensures IsUnion(r, entries)
  {
    var res := new int[|sorted|](i => if 0 <= i < |sorted| then sorted[i] else 0);
    assert res[..|sorted|] == sorted;
    var n := IntUnique(res, |sorted|);
    r := res[..n];
    SortOfElems(sorted, Concat(entries));
    ConcatIs(entries);
    forall v ensures v in r <==> InSome(v, entries) { assert v in r <==> v in Elems(r); }
  }

  /** The blocks a key of 200 or more numbers is compressed to. */
  ghost predicate Blocks(u: seq<int>, e: seq<nat>, theta: int) {
    |e| == MAXNUMRANGE && theta >= 1 && Cuts(e, 0, |u|) && Greedy(u, e, 0, theta)
  }

  /** What comes of compressing a union of 200 or more numbers and decompressing it again. */
  ghost predicate ReadBack(u: seq<int>, e: seq<nat>, r: Key)
    requires Cuts(e, 0, |u|) && |u| > 0
  {
    if Total(Flat(u, e, 0)) > MAXNUMELTS then r == TooSparse
    else if u[|u| - 1] == INT32_MAX then r == Endless
    else r.Key? && Increasing(r.elems) && Elems(r.elems) == Ints(Flat(u, e, 0))
  }

  /** What searches see of a union: itself, or all integers of its ranges. */
  ghost predicate SeenAs(u: seq<int>, r: Key) {
    if |u| < 2 * MAXNUMRANGE then r == Key(u) else exists e, theta :: Blocks(u, e, theta) && ReadBack(u, e, r)
  }

  /** The key above some entries as searches see it. */
  ghost predicate ParentOf(entries: seq<seq<int>>, key: seq<int>) {
    exists u :: IsUnion(u, entries) && SeenAs(u, Key(key))
  }

  /** Compress, then decompress. */
  method StoreAndRead(u: seq<int>) returns (r: Key)
    requires Increasing(u) && Int32s(u)
    ensures SeenAs(u, r)
  {
    hide Total, Ints, Flat, Greedy, Cuts, RangeKey;
    var c, e, theta := GIntCompress(u);
    if |u| >= 2 * MAXNUMRANGE {
      assert Blocks(u, e, theta);
      FlatIsRangeKey(u, e, 0);
      FlatInt32(u, e, 0);
      FlatLast(u, e, 0);
    }
    if c.TooSparse? { return c; }
    r := GIntDecompress(c.elems);
    if |u| >= 2 * MAXNUMRANGE {
      assert r.Key? ==> Elems(r.elems) == (set v | v in r.elems);
      assert ReadBack(u, e, r);
    }
  }

  /** The key above some entries: united, compressed when stored and decompressed when read. */
  method ParentKey(entries: seq<seq<int>>, sorted: seq<int>) returns (r: Key)
    requires SortOf(sorted, Concat(entries)) && Int32s(Concat(entries))
    ensures exists u :: IsUnion(u, entries) && SeenAs(u, r)
    ensures r.Key? ==> ParentOf(entries, r.elems)
  {
    hide SeenAs;
    var u := GIntUnion(entries, sorted);
    UnionInt32(u, entries);
    r := StoreAndRead(u);
    assert IsUnion(u, entries) && SeenAs(u, r);
  }

  lemma UnionInt32(u: seq<int>, entries: seq<seq<int>>)
    requires IsUnion(u, entries) && Int32s(Concat(entries))
    ensures Int32s(u)
  {
    ConcatIs(entries);
    forall i | 0 <= i < |u| ensures INT32_MIN <= u[i] <= INT32_MAX {
      var v := u[i];
      assert v in u && InSome(v, entries);
      var k :| 0 <= k < |Concat(entries)| && Concat(entries)[k] == v;
    }
  }

  /** Whatever searches see of a union contains it. */
  lemma SeenContains(u: seq<int>, d: seq<int>)
    requires Increasing(u) && SeenAs(u, Key(d))
    ensures Elems(u) <= Elems(d) && Increasing(d)
  {
    hide Ints, Flat, Greedy, Cuts, Total;
    if |u| >= 2 * MAXNUMRANGE {
      var e, theta :| Blocks(u, e, theta) && ReadBack(u, e, Key(d));
      forall v | v in Elems(u) ensures v in Elems(d) {
        var k :| 0 <= k < |u| && u[k] == v;
        RangesCover(u, e, 0, k);
      }
    }
  }

  lemma ParentContains(entries: seq<seq<int>>, key: seq<int>, i: nat)
    requires ParentOf(entries, key) && i < |entries|
    ensures Elems(entries[i]) <= Elems(key) && Increasing(key)
  {
    hide SeenAs;
    var u :| IsUnion(u, entries) && SeenAs(u, Key(key));
    SeenContains(u, key);
    forall v | v in entries[i] ensures v in Elems(key) {
      assert InSome(v, entries);
      assert v in Elems(u);
    }
  }

  // ----- how keys come about -----

  /** A key given from below, or made of others; a key on the way to an insertion is made anew of itself
      and what has been inserted, so this nests. */
  datatype Origin<K> = Given(key: K) | United(key: K, parts: seq<Origin<K>>)

  function Keys<K>(parts: seq<Origin<K>>): (ks: seq<K>)
    ensures |ks| == |parts|
  {
    seq(|parts|, i requires 0 <= i < |parts| => parts[i].key)
  }

  predicate GoesInto<K(==)>(k: K, o: Origin<K>) {
    match o
    case Given(g) => g == k
    case United(_, parts) => exists i :: 0 <= i < |parts| && GoesInto(k, parts[i])
  }

  /** Every key that is made of others is what searches see of their union. */
  ghost predicate WellMade(o: Origin<seq<int>>) {
    o.United? ==> (forall i | 0 <= i < |o.parts| :: WellMade(o.parts[i])) && ParentOf(Keys(o.parts), o.key)
  }

  /** Nothing that has gone into a key is lost from it. */
  lemma {:induction false} OriginContains(o: Origin<seq<int>>, k: seq<int>)
    requires WellMade(o) && GoesInto(k, o)
    ensures Elems(k) <= Elems(o.key)
    decreases o
  {
    hide ParentOf, Elems;
    if o.United? {
      var i :| 0 <= i < |o.parts| && GoesInto(k, o.parts[i]);
      OriginContains(o.parts[i], k);
      ParentContains(Keys(o.parts), o.key, i);
    }
  }

  // ----- searches never prune a match -----

  /** An index: leaf rows under keys. */
  datatype Gist = Leaf(row: seq<int>) | Inner(origin: Origin<seq<int>>, kids: seq<Gist>)

  function KeyOf(n: Gist): seq<int> { if n.Leaf? then n.row else n.origin.key }

  /** The key of every child has gone into its parent's; rows have fewer than 200 elements, so they are
      stored as they are. */
  ghost predicate Built(n: Gist) {
    match n
    case Leaf(row) => Increasing(row) && |row| < 2 * MAXNUMRANGE
    case Inner(origin, kids) =>
      WellMade(origin) && forall i | 0 <= i < |kids| :: Built(kids[i]) && GoesInto(KeyOf(kids[i]), origin)
  }

  ghost predicate Under(leaf: Gist, n: Gist) {
    leaf == n || (n.Inner? && exists i :: 0 <= i < |n.kids| && Under(leaf, n.kids[i]))
  }

  /** The row satisfies the indexed operator, as a set. */
  predicate Matches(row: seq<int>, q: Query, strategy: nat)
    requires WellFormed(q, strategy)
  {
    if strategy == BOOLEAN then Execute(q.items, |q.items| - 1, true, Among(row))
    else if strategy == OVERLAP then Elems(row) * Elems(q.arr) != {}
    else if strategy == SAME then Elems(row) == Elems(q.arr)
    else if strategy == CONTAINS || strategy == OLD_CONTAINS then Elems(q.arr) <= Elems(row)
    else if strategy == CONTAINED_BY || strategy == OLD_CONTAINED_BY then Elems(row) <= Elems(q.arr)
    else false
  }

  lemma {:induction false} RowBelowKey(leaf: Gist, n: Gist)
    requires Built(n) && leaf.Leaf? && Under(leaf, n)
    ensures Elems(leaf.row) <= Elems(KeyOf(n))
    decreases n
  {
    hide WellMade, GoesInto, Elems;
    if n.Inner? {
      var i :| 0 <= i < |n.kids| && Under(leaf, n.kids[i]);
      RowBelowKey(leaf, n.kids[i]);
      OriginContains(n.origin, KeyOf(n.kids[i]));
    }
  }

  /** Increasing sequences are determined by their sets. */
  lemma {:induction false} SameElems(s: seq<int>, t: seq<int>)
    requires Increasing(s) && Increasing(t) && Elems(s) == Elems(t)
    ensures s == t
    decreases |s|
  {
    if s == [] {
      assert forall k | 0 <= k < |t| :: t[k] in Elems(t);
    } else {
      assert s[|s| - 1] in Elems(t);
      assert |t| > 0 && t[|t| - 1] in Elems(s);
      var v := s[|s| - 1];
      assert v == t[|t| - 1];
      var s', t' := s[..|s| - 1], t[..|t| - 1];
      forall w ensures w in s' <==> w in t' {
        assert s == s' + [v] && t == t' + [v];
        if w in s' { assert w != v; assert w in Elems(t); }
        if w in t' { assert w != v; assert w in Elems(s); }
      }
      SameElems(s', t');
      assert s == s' + [v] && t == t' + [v];
    }
  }

  lemma Meets(small: set<int>, large: set<int>, other: set<int>)
    requires small <= large && small * other != {}
    ensures large * other != {}
  {
    assert small * other <= large * other;
  }

  /** On leaves the test is the operator, for every strategy, NOT included: nothing needs rechecking. */
  lemma LeafExact(row: seq<int>, q: Query, strategy: nat)
    requires Increasing(row) && WellFormed(q, strategy)
    ensures Consistent(row, true, q, strategy) <==> Matches(row, q, strategy)
  {
    if strategy == SAME && Elems(row) == Elems(q.arr) { SameElems(row, q.arr); }
  }

  /** Some row that the key contains matches. */
  ghost predicate SomeRowMatches(key: seq<int>, q: Query, strategy: nat)
    requires WellFormed(q, strategy)
  {
    exists row :: RowMatches(row, key, q, strategy)
  }

  predicate RowMatches(row: seq<int>, key: seq<int>, q: Query, strategy: nat)
    requires WellFormed(q, strategy)
  {
    Increasing(row) && Elems(row) <= Elems(key) && Matches(row, q, strategy)
  }

  /** On inner keys the test prunes all it can: unless there is a NOT in the query, a key is consistent
      exactly if some row that it contains matches. */
  lemma InnerExact(key: seq<int>, q: Query, strategy: nat)
    requires Increasing(key) && WellFormed(q, strategy) && (strategy == BOOLEAN ==> NotFree(q.items))
    ensures Consistent(key, false, q, strategy) <==> SomeRowMatches(key, q, strategy)
  {
    forall row | RowMatches(row, key, q, strategy) ensures Consistent(key, false, q, strategy) {
      InnerNeeded(row, key, q, strategy);
    }
    if Consistent(key, false, q, strategy) {
      if strategy == BOOLEAN {
        SameWithoutNot(q.items, |q.items| - 1, Among(key));
        assert RowMatches(key, key, q, strategy);
      } else if strategy == OVERLAP {
        assert RowMatches(key, key, q, strategy);
      } else if strategy == CONTAINED_BY || strategy == OLD_CONTAINED_BY {
        assert RowMatches([], key, q, strategy);
      } else {
        assert RowMatches(q.arr, key, q, strategy);
      }
    }
  }

  lemma InnerNeeded(row: seq<int>, key: seq<int>, q: Query, strategy: nat)
    requires WellFormed(q, strategy) && RowMatches(row, key, q, strategy)
    ensures Consistent(key, false, q, strategy)
  {
    if strategy == BOOLEAN {
      ApproximationKeepsMatches(q.items, |q.items| - 1, Among(row), Among(key));
    } else if strategy == OVERLAP {
      Meets(Elems(row), Elems(key), Elems(q.arr));
    }
  }

  /** Whatever the row, the depth and the operator: no key on the way to a matching row is pruned,
      and the row itself is found. */
  lemma SearchFindsMatches(leaf: Gist, n: Gist, q: Query, strategy: nat)
    requires Built(n) && leaf.Leaf? && Built(leaf) && Under(leaf, n) && WellFormed(q, strategy)
    requires Matches(leaf.row, q, strategy)
    ensures Consistent(KeyOf(n), n.Leaf?, q, strategy)
  {
    hide Consistent, Matches, Elems, Increasing;
    RowBelowKey(leaf, n);
    if n.Leaf? {
      LeafExact(leaf.row, q, strategy);
    } else {
      assert RowMatches(leaf.row, KeyOf(n), q, strategy);
      InnerNeeded(leaf.row, KeyOf(n), q, strategy);
    }
  }

  // ----- page splits -----

  /** `order` lists the offsets 1..n, in any order: the offsets as qsort leaves the cost vector. */
  ghost predicate Permutes(order: seq<nat>, n: nat) {
    && |order| == n
    && (forall i | 0 <= i < n :: 1 <= order[i] <= n)
    && (forall i, j | 0 <= i < j < n :: order[i] != order[j])
    && (forall k | 1 <= k <= n :: k in order)
  }

  /** Every offset of `done` is on exactly one side. */
  ghost predicate Partition(left: seq<nat>, right: seq<nat>, done: seq<nat>) {
    && |left| + |right| == |done|
    && (forall k :: k in done <==> k in left || k in right)
    && (forall k :: !(k in left && k in right))
  }

  lemma PartitionStep(left: seq<nat>, right: seq<nat>, order: seq<nat>, j: nat, goLeft: bool)
    requires j < |order| && Partition(left, right, order[..j])
    requires forall a, b | 0 <= a < b < |order| :: order[a] != order[b]
    ensures if goLeft then Partition(left + [order[j]], right, order[..j + 1])
            else Partition(left, right + [order[j]], order[..j + 1])
  {
    var k := order[j];
    assert order[..j + 1] == order[..j] + [k];
    assert k !in order[..j] by { assert forall a | 0 <= a < j :: order[..j][a] == order[a]; }
    if goLeft { assert forall o :: o in left + [k] <==> o in left || o == k; }
    else { assert forall o :: o in right + [k] <==> o in right || o == k; }
  }

  /** The seeds: the pair with the largest waste, by whatever arithmetic `waste` stands for. */
  method PickSeeds(n: nat, waste: (nat, nat) -> real) returns (seed_1: nat, seed_2: nat)
    requires n >= 2
    ensures 1 <= seed_1 < seed_2 <= n
  {
    var maxoff := n - 1;
    var firsttime, most := true, 0.0;
    seed_1, seed_2 := 0, 0;
    var i := 1;
    while i < maxoff
      invariant 1 <= i && (seed_1 == seed_2 == 0 || 1 <= seed_1 < seed_2 <= n)
    {
      var j := i + 1;
      while j <= maxoff
        invariant i < j && (seed_1 == seed_2 == 0 || 1 <= seed_1 < seed_2 <= n)
      {
        if waste(i, j) > most || firsttime {
          most, seed_1, seed_2, firsttime := waste(i, j), i, j, false;
        }
        j := j + 1;
      }
      i := i + 1;
    }
    if seed_1 == 0 || seed_2 == 0 {
      seed_1, seed_2 := 1, 2;
    }
  }

  /** v is in the key of some offset in `side`; offset k is entry k - 1. */
  predicate OnSide(v: int, side: seq<nat>, keys: seq<seq<int>>)
    requires ValidSide(side, keys)
  {
    exists k :: 0 <= k < |side| && v in keys[side[k] - 1]
  }

  /** The offsets of a side are offsets of keys. */
  predicate ValidSide<K>(side: seq<nat>, keys: seq<K>) { forall k | 0 <= k < |side| :: 1 <= side[k] <= |keys| }

  /** The datum so far: the seed's key united with those of the offsets in `side`. */
  ghost predicate GrownTo(datum: seq<int>, seed: nat, side: seq<nat>, keys: seq<seq<int>>) {
    && Increasing(datum) && 1 <= seed <= |keys| && ValidSide(side, keys)
    && forall v :: v in datum <==> v in keys[seed - 1] || OnSide(v, side, keys)
  }

  lemma GrowStep(datum: seq<int>, datum': seq<int>, seed: nat, side: seq<nat>, keys: seq<seq<int>>, i: nat)
    requires GrownTo(datum, seed, side, keys) && 1 <= i <= |keys| && Increasing(datum')
    requires Elems(datum') == Elems(datum) + Elems(keys[i - 1]) || (i == seed && datum' == datum)
    ensures GrownTo(datum', seed, side + [i], keys)
  {
    var more := side + [i];
    assert forall k | 0 <= k < |side| :: more[k] == side[k];
    forall v ensures v in datum' <==> v in keys[seed - 1] || OnSide(v, more, keys) {
      assert v in datum' <==> v in Elems(datum');
      assert v in datum <==> v in Elems(datum);
      OnSideStep(v, side, keys, i);
    }
  }

  lemma OnSideStep(v: int, side: seq<nat>, keys: seq<seq<int>>, i: nat)
    requires ValidSide(side, keys) && 1 <= i <= |keys|
    ensures ValidSide(side + [i], keys) && (OnSide(v, side + [i], keys) <==> OnSide(v, side, keys) || v in keys[i - 1])
  {
    var more := side + [i];
    assert forall k | 0 <= k < |side| :: more[k] == side[k];
    if OnSide(v, side, keys) {
      var k :| 0 <= k < |side| && v in keys[side[k] - 1];
      assert v in keys[more[k] - 1];
    }
    if v in keys[i - 1] { assert v in keys[more[|side|] - 1]; }
  }

  /** The keys of the offsets in `side`. */
  function Chosen<K>(keys: seq<K>, side: seq<nat>): (ks: seq<K>)
    requires ValidSide(side, keys)
    ensures |ks| == |side|
  {
    seq(|side|, k requires 0 <= k < |side| => keys[side[k] - 1])
  }

  lemma GrownIsUnion(datum: seq<int>, seed: nat, side: seq<nat>, keys: seq<seq<int>>)
    requires GrownTo(datum, seed, side, keys) && seed in side
    ensures ValidSide(side, keys) && IsUnion(datum, Chosen(keys, side))
  {
    var ks := Chosen(keys, side);
    var s :| 0 <= s < |side| && side[s] == seed;
    forall v ensures v in datum <==> InSome(v, ks) {
      if v in keys[seed - 1] { assert v in ks[s]; }
      if OnSide(v, side, keys) {
        var k :| 0 <= k < |side| && v in keys[side[k] - 1];
        assert v in ks[k];
      }
      if InSome(v, ks) {
        var k :| 0 <= k < |ks| && v in ks[k];
        assert v in keys[side[k] - 1];
      }
    }
  }

  /** g_int_picksplit: for any waste and enlargement arithmetic and any order of the cost vector,
      every offset lands on exactly one side, no side is empty, and each side's datum is the union
      of the keys assigned to it. */
  method GIntPickSplit(keys: seq<seq<int>>, order: seq<nat>, waste: (nat, nat) -> real,
                       enlargesLess: (seq<int>, seq<int>, nat, nat, nat) -> bool)
    returns (left: seq<nat>, right: seq<nat>, ldatum: seq<int>, rdatum: seq<int>)
    requires |keys| >= 2 && Permutes(order, |keys|) && forall k | 0 <= k < |keys| :: Increasing(keys[k])
    ensures Partition(left, right, order) && |left| > 0 && |right| > 0
    ensures ValidSide(left, keys) && IsUnion(ldatum, Chosen(keys, left))
    ensures ValidSide(right, keys) && IsUnion(rdatum, Chosen(keys, right))
  {
    hide Partition, GrownTo, IsUnion, Elems, Increasing, Ascending;
    var n := |keys|;
    var seed_1, seed_2 := PickSeeds(n, waste);
    left, right := [], [];
    ldatum, rdatum := keys[seed_1 - 1], keys[seed_2 - 1];
    NothingPlaced(seed_1, keys);
    NothingPlaced(seed_2, keys);
    Ascends(ldatum);
    Ascends(rdatum);
    assert order[..0] == [];
    for j := 0 to n
      invariant Partition(left, right, order[..j])
      invariant GrownTo(ldatum, seed_1, left, keys) && GrownTo(rdatum, seed_2, right, keys)
      invariant Increasing(ldatum) && Increasing(rdatum) && Ascending(ldatum) && Ascending(rdatum)
      invariant (seed_1 in order[..j] ==> seed_1 in left) && (seed_2 in order[..j] ==> seed_2 in right)
    {
      var i := order[j];
      assert order[..j + 1] == order[..j] + [i];
      if i == seed_1 {
        PartitionStep(left, right, order, j, true);
        GrowStep(ldatum, ldatum, seed_1, left, keys, i);
        left := left + [i];
        continue;
      } else if i == seed_2 {
        PartitionStep(left, right, order, j, false);
        GrowStep(rdatum, rdatum, seed_2, right, keys, i);
        right := right + [i];
        continue;
      }
      Ascends(keys[i - 1]);
      var union_dl := InnerIntUnion(ldatum, keys[i - 1]);
      var union_dr := InnerIntUnion(rdatum, keys[i - 1]);
      Ascends(union_dl);
      Ascends(union_dr);
      if enlargesLess(ldatum, rdatum, i, |left|, |right|) {
        PartitionStep(left, right, order, j, true);
        GrowStep(ldatum, union_dl, seed_1, left, keys, i);
        ldatum, left := union_dl, left + [i];
      } else {
        PartitionStep(left, right, order, j, false);
        GrowStep(rdatum, union_dr, seed_2, right, keys, i);
        rdatum, right := union_dr, right + [i];
      }
    }
    assert order[..n] == order;
    assert seed_1 in order && seed_2 in order;
    GrownIsUnion(ldatum, seed_1, left, keys);
    GrownIsUnion(rdatum, seed_2, right, keys);
  }

  lemma NothingPlaced(seed: nat, keys: seq<seq<int>>)
    requires 1 <= seed <= |keys| && Increasing(keys[seed - 1])
    ensures GrownTo(keys[seed - 1], seed, [], keys) && Partition([], [], [])
  {
  }

  lemma Ascends(s: seq<int>)
    requires Increasing(s)
    ensures Ascending(s)
  {
  }
}
