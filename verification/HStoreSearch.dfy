/** Key lookup in a packed hstore: the binary search with its cached lower bound, and the operators
    that carry the bound from one key to the next. */
module HStoreSearch {
  import opened Bytes
  import opened Common
  import opened HStoreBuild
  import opened HStoreFormat
  import opened HStoreOps
  import opened HStorePairs

  /** The keys from `high` on are above `key`. */
  predicate Above(ps: seq<Pair>, high: nat, key: bytes) {
    forall t | high <= t < |ps| :: KeyLess(key, ps[t].key)
  }

  /** The keys in low..mid are not above `key`. */
  predicate NotAbove(ps: seq<Pair>, low: nat, mid: nat, key: bytes) {
    mid <= |ps| && forall t | low <= t < mid :: KeyCmp(ps[t].key, key) <= 0
  }

  /** In sorted pairs one comparison settles everything on one side. */
  lemma Split(ps: seq<Pair>, low: nat, mid: nat, key: bytes)
    requires Sorted(ps) && mid < |ps|
    ensures KeyCmp(ps[mid].key, key) <= 0 ==> NotAbove(ps, low, mid + 1, key)
    ensures KeyCmp(ps[mid].key, key) < 0 ==> forall t | low <= t <= mid :: KeyLess(ps[t].key, key)
    ensures KeyCmp(ps[mid].key, key) > 0 ==> Above(ps, mid, key)
    ensures ps[mid].key == key ==> Above(ps, mid + 1, key)
  {
    KeyCmpAnti(ps[mid].key, key);
    KeyCmpZero(ps[mid].key, key);
    forall t | 0 <= t < |ps|
      ensures t < mid && KeyCmp(ps[mid].key, key) <= 0 ==> KeyLess(ps[t].key, key)
      ensures t > mid && KeyCmp(ps[mid].key, key) >= 0 ==> KeyLess(key, ps[t].key)
    {
      if t < mid && KeyCmp(ps[mid].key, key) < 0 { KeyTrans(ps[t].key, ps[mid].key, key); }
      if t > mid && KeyCmp(ps[mid].key, key) > 0 { KeyTrans(key, ps[mid].key, ps[t].key); }
    }
  }

  /** hstoreFindKey. The search sees only the entries from the bound on; there it finds the key
      exactly if it is present, and the new bound splits them into keys not above the one sought
      and keys above it. */
  method FindKey(hs: HStore, lowbound: nat, key: bytes) returns (idx: int, newbound: nat)
    requires Canonical(hs) && lowbound <= Count(hs)
    ensures lowbound <= newbound <= Count(hs)
    ensures if idx >= 0 then idx < Count(hs) && Pairs(hs)[idx].key == key && lowbound <= idx == newbound - 1
            else idx == -1 && forall t | lowbound <= t < Count(hs) :: Pairs(hs)[t].key != key
    ensures NotAbove(Pairs(hs), lowbound, newbound, key) && Above(Pairs(hs), newbound, key)
  {
    hide Pairs, WellFormed, Sorted;
    ghost var ps := Pairs(hs);
    var stopLow, stopHigh := lowbound, Count(hs);
    while stopLow < stopHigh
      invariant lowbound <= stopLow <= stopHigh <= Count(hs)
      invariant forall t | lowbound <= t < stopLow :: KeyLess(ps[t].key, key)
      invariant Above(ps, stopHigh, key)
    {
      var stopMiddle := stopLow + (stopHigh - stopLow) / 2;
      var difference := KeyCmp(Pairs(hs)[stopMiddle].key, key);
      KeyCmpZero(ps[stopMiddle].key, key);
      Split(ps, lowbound, stopMiddle, key);
      if difference == 0 {
        return stopMiddle, stopMiddle + 1;
      } else if difference < 0 {
        stopLow := stopMiddle + 1;
      } else {
        stopHigh := stopMiddle;
      }
    }
    forall t | lowbound <= t < Count(hs) ensures ps[t].key != key { KeyIrreflexive(key); }
    return -1, stopLow;
  }

  /** A bound that only passes smaller keys hides nothing: the search answers for the whole map. */
  lemma BoundHidesNothing(hs: HStore, low: nat, key: bytes, idx: int)
    requires Canonical(hs) && Passed(Pairs(hs), low, key)
    requires if idx >= 0 then idx < Count(hs) && Pairs(hs)[idx].key == key
             else forall t | low <= t < Count(hs) :: Pairs(hs)[t].key != key
    ensures idx >= 0 <==> key in Content(hs)
    ensures idx >= 0 ==> Content(hs)[key] == Pairs(hs)[idx].val
  {
    MapHas(Pairs(hs));
    KeyIrreflexive(key);
  }

  /** The bound left by one key passes only keys below every later key. */
  lemma BoundCarries(ps: seq<Pair>, low: nat, mid: nat, key: bytes, next: bytes)
    requires Passed(ps, low, key) && NotAbove(ps, low, mid, key) && low <= mid && KeyLess(key, next)
    ensures Passed(ps, mid, next)
  {
    forall t | 0 <= t < mid ensures KeyLess(ps[t].key, next) {
      KeyCmpZero(ps[t].key, key);
      if KeyLess(ps[t].key, key) { KeyTrans(ps[t].key, key, next); }
    }
  }

  /** One search of an increasing series: exact for the whole map, and ready for the next key. */
  method FindNext(hs: HStore, lowbound: nat, keys: seq<Pair>, i: nat) returns (idx: int, newbound: nat)
    requires Canonical(hs) && Sorted(keys) && i < |keys| && Passed(Pairs(hs), lowbound, keys[i].key)
    ensures idx >= 0 <==> keys[i].key in Content(hs)
    ensures idx >= 0 ==> idx < Count(hs) && Pairs(hs)[idx] == Pair(keys[i].key, Content(hs)[keys[i].key])
    ensures newbound <= Count(hs) && (i + 1 < |keys| ==> Passed(Pairs(hs), newbound, keys[i + 1].key))
  {
    hide Pairs, WellFormed, MapOf, Above;
    idx, newbound := FindKey(hs, lowbound, keys[i].key);
    BoundHidesNothing(hs, lowbound, keys[i].key, idx);
    if i + 1 < |keys| { BoundCarries(Pairs(hs), lowbound, newbound, keys[i].key, keys[i + 1].key); }
  }

  /** hstore_exists */
  method HStoreExists(hs: HStore, key: bytes) returns (res: bool)
    requires Canonical(hs)
    ensures res == (key in Content(hs))
  {
    var idx, _ := FindKey(hs, 0, key);
    BoundHidesNothing(hs, 0, key, idx);
    res := idx >= 0;
  }

  /** hstore_defined */
  method HStoreDefined(hs: HStore, key: bytes) returns (res: bool)
    requires Canonical(hs)
    ensures res == (key in Content(hs) && Content(hs)[key] != None)
  {
    var idx, _ := FindKey(hs, 0, key);
    BoundHidesNothing(hs, 0, key, idx);
    res := idx >= 0 && Pairs(hs)[idx].val != None;
  }

  lemma KeysOf(q: seq<Pair>, k: bytes)
    requires Sorted(q)
    ensures k in MapOf(q) <==> exists i :: 0 <= i < |q| && q[i].key == k
  {
    MapHas(q);
  }

  /** hstore_exists_any: the keys meet the map's. */
  method HStoreExistsAny(hs: HStore, names: seq<Option<bytes>>) returns (res: bool)
    requires Canonical(hs)
    ensures res <==> exists k :: k in KeySet(names) && k in Content(hs)
  {
    hide Pairs, WellFormed, MapOf, Sorted, Passed;
    var keys := HStoreArrayToPairs(names);
    var lowbound: nat := 0;
    NothingPassed(hs, keys);
    for i := 0 to |keys|
      invariant i < |keys| ==> Passed(Pairs(hs), lowbound, keys[i].key)
      invariant forall t | 0 <= t < i :: keys[t].key !in Content(hs)
    {
      var idx;
      idx, lowbound := FindNext(hs, lowbound, keys, i);
      if idx >= 0 {
        KeysOf(keys, keys[i].key);
        return true;
      }
    }
    forall k | k in MapOf(keys) ensures k !in Content(hs) { KeysOf(keys, k); }
    return false;
  }

  /** hstore_exists_all: the map has all of the keys. */
  method HStoreExistsAll(hs: HStore, names: seq<Option<bytes>>) returns (res: bool)
    requires Canonical(hs)
    ensures res <==> KeySet(names) <= Content(hs).Keys
  {
    hide Pairs, WellFormed, MapOf, Sorted, Passed;
    var keys := HStoreArrayToPairs(names);
    var lowbound: nat := 0;
    NothingPassed(hs, keys);
    for i := 0 to |keys|
      invariant i < |keys| ==> Passed(Pairs(hs), lowbound, keys[i].key)
      invariant forall t | 0 <= t < i :: keys[t].key in Content(hs)
    {
      var idx;
      idx, lowbound := FindNext(hs, lowbound, keys, i);
      if idx < 0 {
        KeysOf(keys, keys[i].key);
        assert keys[i].key in MapOf(keys).Keys;
        return false;
      }
    }
    forall k | k in MapOf(keys) ensures k in Content(hs) { KeysOf(keys, k); }
    return true;
  }

  lemma NothingPassed(hs: HStore, keys: seq<Pair>)
    requires WellFormed(hs)
    ensures |keys| > 0 ==> Passed(Pairs(hs), 0, keys[0].key)
  {
  }

  /** hstore_contains: every pair of the template, null values included, is a pair of the value. */
  method HStoreContains(val: HStore, tmpl: HStore) returns (res: bool)
    requires Canonical(val) && Canonical(tmpl)
    ensures res <==> Content(tmpl).Items <= Content(val).Items
  {
    hide Pairs, WellFormed, MapOf, Sorted, Passed;
    ghost var p := Pairs(tmpl);
    var lastidx: nat := 0;
    NothingPassed(val, p);
    for i := 0 to Count(tmpl)
      invariant i < |p| ==> Passed(Pairs(val), lastidx, p[i].key)
      invariant forall t | 0 <= t < i :: Has(Content(val), p[t])
    {
      var idx;
      idx, lastidx := FindNext(val, lastidx, Pairs(tmpl), i);
      if idx < 0 || Pairs(tmpl)[i].val != Pairs(val)[idx].val {
        NotWithin(p, i, Content(val));
        return false;
      }
    }
    Within(p, Content(val));
    return true;
  }

  predicate Has(m: map<bytes, Option<bytes>>, p: Pair) { p.key in m && m[p.key] == p.val }

  lemma Within(p: seq<Pair>, m: map<bytes, Option<bytes>>)
    requires Sorted(p) && forall t | 0 <= t < |p| :: Has(m, p[t])
    ensures MapOf(p).Items <= m.Items
  {
    MapHas(p);
    forall kv | kv in MapOf(p).Items ensures kv in m.Items {
      var t :| 0 <= t < |p| && p[t].key == kv.0;
      assert Has(m, p[t]);
    }
  }

  lemma NotWithin(p: seq<Pair>, i: nat, m: map<bytes, Option<bytes>>)
    requires Sorted(p) && i < |p| && !Has(m, p[i])
    ensures !(MapOf(p).Items <= m.Items)
  {
    MapHas(p);
    assert (p[i].key, p[i].val) in MapOf(p).Items && (p[i].key, p[i].val) !in m.Items;
  }

  /** hstore_slice_to_hstore: the map restricted to the keys. */
  method HStoreSlice(hs: HStore, names: seq<Option<bytes>>) returns (r: HStore)
    requires Canonical(hs)
    ensures Canonical(r) && Content(r) == Content(hs) - (Content(hs).Keys - KeySet(names))
  {
    hide Pairs, WellFormed, MapOf, Sorted, Passed, AllBelow, PackStr, Plain;
    var keys := HStoreArrayToPairs(names);
    var outPairs: seq<Raw> := [];
    var bufsiz: nat := 0;
    var lastidx: nat := 0;
    NothingPassed(hs, keys);
    SliceStart(Content(hs), keys);
    NoPairs();
    for i := 0 to |keys|
      invariant i < |keys| ==> Passed(Pairs(hs), lastidx, keys[i].key)
      invariant SliceState(Content(hs), Plain(outPairs), keys, i) && bufsiz == |PackStr(Plain(outPairs))|
    {
      var idx;
      idx, lastidx := FindNext(hs, lastidx, keys, i);
      SliceStep(Content(hs), Plain(outPairs), keys, i);
      if idx >= 0 {
        var p := Raw(keys[i].key, Pairs(hs)[idx].val, false);
        SpaceOf(outPairs + [p], outPairs, p);
        PlainPush(outPairs, p);
        outPairs := outPairs + [p];
        bufsiz := bufsiz + PairLen(p);
      }
    }
    SliceDone(Content(hs), Plain(outPairs), keys);
    Built(Plain(outPairs));
    r := HStoreFromPairs(outPairs, bufsiz);
  }

  lemma NoPairs()
    ensures Plain([]) == [] && PackStr(Plain([])) == []
  {
  }

  lemma PlainPush(rs: seq<Raw>, p: Raw)
    ensures Plain(rs + [p]) == Plain(rs) + [Pair(p.key, p.val)]
  {
  }

  /** `out` holds the pairs of `m` under the first i keys. */
  predicate SliceState(m: map<bytes, Option<bytes>>, out: seq<Pair>, keys: seq<Pair>, i: nat) {
    && i <= |keys| && Sorted(out) && (i < |keys| ==> AllBelow(out, keys[i].key))
    && (forall k | k in MapOf(out) :: k in m && k in MapOf(keys[..i]) && MapOf(out)[k] == m[k])
    && (forall k | k in m && k in MapOf(keys[..i]) :: k in MapOf(out))
  }

  lemma SliceStart(m: map<bytes, Option<bytes>>, keys: seq<Pair>)
    ensures SliceState(m, [], keys, 0)
  {
    assert keys[..0] == [];
  }

  lemma SliceStep(m: map<bytes, Option<bytes>>, out: seq<Pair>, keys: seq<Pair>, i: nat)
    requires Sorted(keys) && i < |keys| && SliceState(m, out, keys, i)
    ensures var key := keys[i].key;
            SliceState(m, if key in m then out + [Pair(key, m[key])] else out, keys, i + 1)
  {
    hide MapOf;
    var key := keys[i].key;
    MapPrefix(keys, i);
    if key in m { AppendSorted(out, Pair(key, m[key])); }
    if i + 1 < |keys| && key !in m {
      forall t | 0 <= t < |out| ensures KeyLess(out[t].key, keys[i + 1].key) {
        KeyTrans(out[t].key, key, keys[i + 1].key);
      }
    }
  }

  lemma SliceDone(m: map<bytes, Option<bytes>>, out: seq<Pair>, keys: seq<Pair>)
    requires SliceState(m, out, keys, |keys|)
    ensures Sorted(out) && MapOf(out) == m - (m.Keys - MapOf(keys).Keys)
  {
    assert keys[..|keys|] == keys;
  }
}
