/** From a list of pairs to a canonical hstore: sorting, dropping duplicate keys, packing. */
module HStorePairs {
  import opened Bytes
  import opened Common
  import opened HStoreBuild
  import opened HStoreFormat

  /** Pairs: a key, its value (None when isnull is set) and whether the strings are owned. */
  datatype Raw = Raw(key: bytes, val: Option<bytes>, needfree: bool)

  /** Pairs without the ownership flag. */
  function Plain(rs: seq<Raw>): (ps: seq<Pair>)
    ensures |ps| == |rs|
  {
    seq(|rs|, i requires 0 <= i < |rs| => Pair(rs[i].key, rs[i].val))
  }

  /** comparePairs */
  function ComparePairs(a: Raw, b: Raw): int {
    if KeyCmp(a.key, b.key) != 0 then KeyCmp(a.key, b.key)
    else if a.needfree == b.needfree then 0 else if a.needfree then 1 else -1
  }

  /** comparePairs is the total preorder that qsort needs. */
  lemma ComparePairsOrders(a: Raw, b: Raw, c: Raw)
    ensures ComparePairs(a, b) == -ComparePairs(b, a)
    ensures ComparePairs(a, b) <= 0 && ComparePairs(b, c) <= 0 ==> ComparePairs(a, c) <= 0
  {
    KeyCmpAnti(a.key, b.key);
    KeyCmpZero(a.key, b.key);
    KeyCmpZero(b.key, c.key);
    KeyCmpZero(a.key, c.key);
    if KeyLess(a.key, b.key) && KeyLess(b.key, c.key) { KeyTrans(a.key, b.key, c.key); }
  }

  predicate Ordered(s: seq<Raw>) { forall i, j | 0 <= i < j < |s| :: ComparePairs(s[i], s[j]) <= 0 }

  // ----- the library's sort -----

  function Inserted(s: seq<Raw>, x: Raw): (r: seq<Raw>)
    ensures multiset(r) == multiset(s) + multiset{x}
  {
    if |s| == 0 || ComparePairs(x, s[0]) <= 0 then [x] + s
    else
      assert s == [s[0]] + s[1..];
      [s[0]] + Inserted(s[1..], x)
  }

  lemma {:induction false} InsertedOrdered(s: seq<Raw>, x: Raw)
    requires Ordered(s)
    ensures Ordered(Inserted(s, x))
    decreases |s|
  {
    hide ComparePairs;
    if |s| > 0 && ComparePairs(x, s[0]) > 0 {
      InsertedOrdered(s[1..], x);
      var r := Inserted(s[1..], x);
      ComparePairsOrders(x, s[0], x);
      forall j | 0 <= j < |r| ensures ComparePairs(s[0], r[j]) <= 0 { InsertedFrom(s[1..], x, r[j]); }
    } else if |s| > 0 {
      forall j | 0 <= j < |s| ensures ComparePairs(x, s[j]) <= 0 { ComparePairsOrders(x, s[0], s[j]); }
    }
  }

  lemma InsertedFrom(s: seq<Raw>, x: Raw, y: Raw)
    requires y in Inserted(s, x)
    ensures y == x || y in s
  {
    hide Inserted;
    assert y in multiset(Inserted(s, x));
  }

  /** Stands for qsort, of which callers know only that it leaves a sorted permutation. */
  method Qsort(a: array<Raw>, l: nat)
    requires l <= a.Length
    modifies a
    ensures Ordered(a[..l]) && multiset(a[..l]) == multiset(old(a[..l])) && a[l..] == old(a[l..])
  {
    var s: seq<Raw> := [];
    for i := 0 to l
      invariant Ordered(s) && multiset(s) == multiset(a[..i]) && a[..] == old(a[..])
    {
      InsertedOrdered(s, a[i]);
      s := Inserted(s, a[i]);
      assert a[..i + 1] == a[..i] + [a[i]];
    }
    SameSize(s, a[..l]);
    assert a[..l] == old(a[..l]);
    forall i | 0 <= i < l { a[i] := s[i]; }
    assert a[..l] == s;
  }

  lemma SameSize<T>(s: seq<T>, t: seq<T>)
    requires multiset(s) == multiset(t)
    ensures |s| == |t|
  {
    assert |multiset(s)| == |multiset(t)|;
  }

  // ----- dropping duplicates -----

  /** The first of every run of equal keys. */
  function Unique(s: seq<Raw>): (u: seq<Raw>)
    ensures |u| <= |s| && (|s| > 0 ==> |u| > 0 && u[|u| - 1].key == s[|s| - 1].key)
  {
    if |s| == 0 then [] else
    var u, x := Unique(s[..|s| - 1]), s[|s| - 1];
    if |u| > 0 && u[|u| - 1].key == x.key then u else u + [x]
  }

  lemma UniqueStep(s: seq<Raw>, i: nat)
    requires i < |s|
    ensures var u := Unique(s[..i]);
            Unique(s[..i + 1]) == if |u| > 0 && u[|u| - 1].key == s[i].key then u else u + [s[i]]
  {
    assert s[..i + 1][..i] == s[..i];
  }

  predicate Increasing(u: seq<Raw>) { forall i, j | 0 <= i < j < |u| :: KeyLess(u[i].key, u[j].key) }

  /** x is represented in u: by a pair with its key that is owned only if x is. */
  predicate Kept(u: seq<Raw>, x: Raw) {
    exists j :: 0 <= j < |u| && u[j].key == x.key && (u[j].needfree ==> x.needfree)
  }

  /** Of a sorted list, Unique keeps every key once, each with one of its pairs. */
  lemma {:induction false} UniqueKeeps(s: seq<Raw>)
    requires Ordered(s)
    ensures Increasing(Unique(s))
    ensures forall x | x in Unique(s) :: x in s
    ensures forall x | x in s :: Kept(Unique(s), x)
    decreases |s|
  {
    hide ComparePairs, Unique, Kept;
    if |s| == 0 {
      NoneKept(s);
    } else {
      var n := |s| - 1;
      var t, x := s[..n], s[n];
      UniqueKeeps(t);
      var u := Unique(t);
      assert s == t + [x];
      forall j | 0 <= j < |u|
        ensures if u[j].key == x.key then u[j].needfree ==> x.needfree else KeyLess(u[j].key, x.key) {
        assert u[j] in t;
        var k :| 0 <= k < n && s[k] == u[j];
        CompareKeys(s[k], x);
      }
      UniqueStep(s, n);
      assert s[..n + 1] == s;
      if |u| == 0 || u[|u| - 1].key != x.key { IncreasingPush(u, x); }
      KeptGrows(u, t, x);
    }
  }

  lemma NoneKept(s: seq<Raw>)
    requires |s| == 0
    ensures Unique(s) == []
  {
  }

  lemma CompareKeys(y: Raw, x: Raw)
    requires ComparePairs(y, x) <= 0
    ensures if y.key == x.key then y.needfree ==> x.needfree else KeyLess(y.key, x.key)
  {
    KeyCmpZero(y.key, x.key);
  }

  lemma IncreasingPush(u: seq<Raw>, x: Raw)
    requires Increasing(u) && (|u| > 0 ==> KeyLess(u[|u| - 1].key, x.key))
    ensures Increasing(u + [x])
  {
    forall j | 0 <= j < |u| ensures KeyLess(u[j].key, x.key) {
      if j < |u| - 1 { KeyTrans(u[j].key, u[|u| - 1].key, x.key); }
    }
  }

  lemma KeptGrows(u: seq<Raw>, t: seq<Raw>, x: Raw)
    requires forall y | y in t :: Kept(u, y)
    requires |u| > 0 && u[|u| - 1].key == x.key ==> (u[|u| - 1].needfree ==> x.needfree)
    ensures var v := if |u| > 0 && u[|u| - 1].key == x.key then u else u + [x];
            Kept(v, x) && forall y | y in t :: Kept(v, y)
  {
    var v := if |u| > 0 && u[|u| - 1].key == x.key then u else u + [x];
    assert v[|v| - 1].key == x.key;
    forall y | y in t ensures Kept(v, y) {
      var j :| 0 <= j < |u| && u[j].key == y.key && (u[j].needfree ==> y.needfree);
      assert v[j] == u[j];
    }
  }

  function PairLen(p: Raw): nat { |p.key| + if p.val.Some? then |p.val.value| else 0 }

  lemma LenStep(u: seq<Raw>, i: nat)
    requires i < |u|
    ensures |PackStr(Plain(u[..i + 1]))| == |PackStr(Plain(u[..i]))| + PairLen(u[i])
  {
    assert Plain(u[..i + 1])[..i] == Plain(u[..i]);
  }

  /** hstoreUniquePairs: in place, the first n elements become the distinct keys in increasing order,
      each with one of the pairs it came with, and buflen is the space of their strings. */
  method HStoreUniquePairs(a: array<Raw>, l: nat) returns (n: nat, buflen: nat)
    requires l <= a.Length
    modifies a
    ensures n <= l && Increasing(a[..n])
    ensures forall x | x in a[..n] :: x in old(a[..l])
    ensures forall x | x in old(a[..l]) :: Kept(a[..n], x)
    ensures buflen == |PackStr(Plain(a[..n]))|
  {
    hide PackStr, ComparePairs, Unique, Ordered, Increasing, Kept, Plain;
    if l < 2 {
      TrivialUnique(a[..l]);
      return l, if l == 1 then PairLen(a[0]) else 0;
    }
    Qsort(a, l);
    ghost var s := a[..l];
    n, buflen := CompactPairs(a, l);
    UniqueKeeps(s);
    forall x | x in a[..n] ensures x in old(a[..l]) { assert x in multiset(s); }
    forall x | x in old(a[..l]) ensures Kept(a[..n], x) { assert x in multiset(old(a[..l])); }
  }

  /** The compaction has read s[..ptr]; the survivors end at res, and buflen counts all but the last. */
  ghost predicate Compacted(a: array<Raw>, s: seq<Raw>, ptr: nat, res: nat, buflen: nat)
    reads a
  {
    && res < ptr <= |s| <= a.Length && a[ptr..|s|] == s[ptr..]
    && a[..res + 1] == Unique(s[..ptr]) && buflen == |PackStr(Plain(a[..res]))|
  }

  /** The compaction loop of hstoreUniquePairs. */
  method CompactPairs(a: array<Raw>, l: nat) returns (n: nat, buflen: nat)
    requires 2 <= l <= a.Length
    modifies a
    ensures n <= l && a[..n] == Unique(old(a[..l]))
    ensures buflen == |PackStr(Plain(a[..n]))|
  {
    hide PackStr, Unique, Plain;
    ghost var s := a[..l];
    var ptr, res: nat := 1, 0;
    buflen := 0;
    UniqueStart(s, a[..1]);
    assert a[1..l] == s[1..];
    while ptr < l
      invariant Compacted(a, s, ptr, res, buflen)
    {
      res, buflen := CompactStep(a, s, ptr, res, buflen);
      ptr := ptr + 1;
    }
    assert s[..l] == s;
    SpaceOf(a[..res + 1], a[..res], a[res]);
    buflen := buflen + PairLen(a[res]);
    n := res + 1;
  }

  method CompactStep(a: array<Raw>, ghost s: seq<Raw>, ptr: nat, res: nat, buflen: nat)
    returns (res': nat, buflen': nat)
    requires ptr < |s| && Compacted(a, s, ptr, res, buflen)
    modifies a
    ensures Compacted(a, s, ptr + 1, res', buflen')
  {
    hide PackStr, Unique, Plain;
    res', buflen' := res, buflen;
    ghost var kept := a[..res + 1];
    UniqueStep(s, ptr);
    assert a[ptr] == a[ptr..|s|][0] == s[ptr];
    assert kept[res] == a[res];
    if a[ptr].key != a[res].key {
      SpaceOf(kept, a[..res], a[res]);
      buflen' := buflen + PairLen(a[res]);
      res' := res + 1;
      if res' != ptr {
        a[res'] := a[ptr];
      }
      assert a[..res'] == kept;
      assert a[..res' + 1] == kept + [s[ptr]];
    }
    assert s[ptr + 1..] == s[ptr..][1..];
    assert a[ptr + 1..|s|] == old(a[ptr..|s|])[1..];
  }

  lemma SpaceOf(u: seq<Raw>, init: seq<Raw>, x: Raw)
    requires u == init + [x]
    ensures |PackStr(Plain(u))| == |PackStr(Plain(init))| + PairLen(x)
  {
    LenStep(u, |init|);
    assert u[..|init|] == init && u[..|init| + 1] == u;
  }

  lemma UniqueStart(s: seq<Raw>, first: seq<Raw>)
    requires |s| >= 1 && first == s[..1]
    ensures Unique(s[..1]) == first && PackStr(Plain(first[..0])) == []
  {
    assert s[..1][..0] == [];
  }

  lemma TrivialUnique(u: seq<Raw>)
    requires |u| <= 1
    ensures Increasing(u) && (forall x | x in u :: Kept(u, x))
    ensures |PackStr(Plain(u))| == if |u| == 1 then PairLen(u[0]) else 0
  {
    if |u| == 1 {
      LenStep(u, 0);
      assert u[..1] == u;
      forall x | x in u ensures Kept(u, x) { assert u[0] == x; }
    }
  }

  /** hstorePairs: packs the pairs into an allocation of exactly buflen bytes of strings. */
  method HStoreFromPairs(pairs: seq<Raw>, buflen: nat) returns (out: HStore)
    requires buflen == |PackStr(Plain(pairs))|
    ensures out == Pack(Plain(pairs)) && |out.str| == buflen && |out.ents| == 2 * |pairs|
  {
    hide PackStr, RawEnts, EntryImage, CharImage, Builder.Entries, Builder.Strings;
    var b := new Builder(|pairs|, buflen);
    for i := 0 to |pairs|
      invariant fresh(b) && fresh(b.mem) && b.Valid() && b.ps == Plain(pairs)[..i] && b.room == |pairs|
      invariant b.mem.Length == 8 * b.room + buflen
    {
      StrStep(Plain(pairs), i);
      b.AddItem(Pair(pairs[i].key, pairs[i].val));
      assert Plain(pairs)[..i + 1] == Plain(pairs)[..i] + [Plain(pairs)[i]];
    }
    assert Plain(pairs)[..|pairs|] == Plain(pairs);
    out := b.Finalize();
    PackSize(Plain(pairs));
  }

  // ----- key arrays -----

  /** The non-null elements of a text array. */
  function KeySet(names: seq<Option<bytes>>): set<bytes> {
    set i | 0 <= i < |names| && names[i].Some? :: names[i].value
  }

  /** hstoreArrayToPairs: the distinct non-null keys in increasing order, without values. */
  method HStoreArrayToPairs(names: seq<Option<bytes>>) returns (keys: seq<Pair>)
    ensures Sorted(keys) && MapOf(keys).Keys == KeySet(names)
    ensures forall p | p in keys :: p.val == None
  {
    hide Kept, Increasing, PackStr, KeySet;
    var a := new Raw[|names|](_ => Raw([], None, false));
    var j: nat := 0;
    NoKeys(names);
    for i := 0 to |names|
      invariant j <= i && (forall x | x in a[..j] :: x.val == None)
      invariant KeysIn(a[..j]) == KeySet(names[..i])
    {
      KeySetStep(names, i);
      if names[i].Some? {
        a[j] := Raw(names[i].value, None, false);
        assert a[..j + 1] == a[..j] + [a[j]];
        j := j + 1;
      }
    }
    assert names[..|names|] == names;
    ghost var s := a[..j];
    var n, _ := HStoreUniquePairs(a, j);
    keys := Plain(a[..n]);
    SameKeys(a[..n], s);
    forall p | p in keys ensures p.val == None {
      var i :| 0 <= i < n && keys[i] == p;
      assert a[..n][i] in s;
    }
  }

  function KeysIn(s: seq<Raw>): set<bytes> { set x | x in s :: x.key }

  lemma NoKeys(names: seq<Option<bytes>>)
    ensures KeySet(names[..0]) == {}
  {
  }

  lemma SameKeys(u: seq<Raw>, s: seq<Raw>)
    requires Increasing(u) && (forall x | x in u :: x in s) && (forall x | x in s :: Kept(u, x))
    ensures Sorted(Plain(u)) && MapOf(Plain(u)).Keys == KeysIn(s)
  {
    hide MapOf;
    var ps := Plain(u);
    MapHas(ps);
    forall k | k in MapOf(ps) ensures k in KeysIn(s) {
      var i :| 0 <= i < |ps| && ps[i].key == k;
      assert u[i] in s;
    }
    forall x | x in s ensures x.key in MapOf(ps) {
      var j :| 0 <= j < |u| && u[j].key == x.key && (u[j].needfree ==> x.needfree);
      assert ps[j].key == x.key;
    }
  }

  lemma KeySetStep(names: seq<Option<bytes>>, i: nat)
    requires i < |names|
    ensures KeySet(names[..i + 1]) == KeySet(names[..i]) + if names[i].Some? then {names[i].value} else {}
  {
    var s, t := names[..i + 1], names[..i];
    forall k ensures k in KeySet(s) <==> k in KeySet(t) || (names[i].Some? && k == names[i].value) {
      if k in KeySet(t) {
        var m :| 0 <= m < |t| && t[m].Some? && t[m].value == k;
        assert s[m] == t[m];
      }
      assert s[i] == names[i];
    }
  }
}
