/** Concatenation and deletion of packed hstores: sorted merges proved against map algebra. */
module HStoreOps {
  import opened Bytes
  import opened Common
  import opened HStoreBuild
  import opened HStoreFormat
  import opened HStorePairs

  type KeyMap = map<bytes, Option<bytes>>

  // ----- concatenation -----

  /** `out` is the merge of p[..i] and q[..j], where q wins. */
  predicate ConcatState(out: seq<Pair>, p: seq<Pair>, i: nat, q: seq<Pair>, j: nat) {
    && i <= |p| && j <= |q| && Sorted(out)
    && MapOf(out) == MapOf(p[..i]) + MapOf(q[..j])
    && (i < |p| ==> AllBelow(out, p[i].key)) && (j < |q| ==> AllBelow(out, q[j].key))
  }

  /** Taking the second operand's pair; the first operand's pair with the same key is passed over. */
  lemma TakeSecond(out: seq<Pair>, p: seq<Pair>, i: nat, q: seq<Pair>, j: nat)
    requires Sorted(p) && Sorted(q) && ConcatState(out, p, i, q, j) && j < |q|
    requires i < |p| ==> KeyCmp(p[i].key, q[j].key) >= 0
    ensures var same := i < |p| && p[i].key == q[j].key;
            ConcatState(out + [q[j]], p, if same then i + 1 else i, q, j + 1)
  {
    hide MapOf;
    AppendSorted(out, q[j]);
    MapPrefix(q, j);
    if i < |p| {
      KeyCmpZero(p[i].key, q[j].key);
      KeyCmpAnti(p[i].key, q[j].key);
      MapPrefix(p, i);
    }
  }

  lemma TakeFirst(out: seq<Pair>, p: seq<Pair>, i: nat, q: seq<Pair>, j: nat)
    requires Sorted(p) && Sorted(q) && ConcatState(out, p, i, q, j) && i < |p|
    requires j < |q| ==> KeyLess(p[i].key, q[j].key)
    ensures ConcatState(out + [p[i]], p, i + 1, q, j)
  {
    hide MapOf;
    AppendSorted(out, p[i]);
    MapPrefix(p, i);
  }

  lemma ConcatDone(out: seq<Pair>, p: seq<Pair>, q: seq<Pair>)
    requires ConcatState(out, p, |p|, q, |q|)
    ensures Sorted(out) && MapOf(out) == MapOf(p) + MapOf(q)
  {
    assert p[..|p|] == p && q[..|q|] == q;
  }

  lemma ConcatStart(p: seq<Pair>, q: seq<Pair>)
    ensures ConcatState([], p, 0, q, 0)
  {
    assert p[..0] == [] && q[..0] == [];
  }

  /** The order in which the merges compare two keys. */
  function Difference(g: HStore, i: nat, h: HStore, j: nat): int
    requires WellFormed(g) && WellFormed(h) && i < Count(g) && j < Count(h)
  {
    KeyCmp(Pairs(g)[i].key, Pairs(h)[j].key)
  }

  /** One step of the merge in hstore_concat. */
  method ConcatStep(out: Builder, s1: HStore, s1idx: nat, s2: HStore, s2idx: nat) returns (i: nat, j: nat)
    requires Canonical(s1) && Canonical(s2) && s1idx <= Count(s1) && s2idx <= Count(s2)
    requires (s1idx < Count(s1) || s2idx < Count(s2)) && out.Valid()
    requires ConcatState(out.ps, Pairs(s1), s1idx, Pairs(s2), s2idx)
    requires out.HasRoom(Count(s1) - s1idx + Count(s2) - s2idx, RestSize(s1, s1idx) + RestSize(s2, s2idx))
    modifies out, out.mem
    ensures out.Valid() && ConcatState(out.ps, Pairs(s1), i, Pairs(s2), j)
    ensures s1idx <= i <= Count(s1) && s2idx <= j <= Count(s2) && i + j > s1idx + s2idx
    ensures out.HasRoom(Count(s1) - i + Count(s2) - j, RestSize(s1, i) + RestSize(s2, j))
  {
    hide Pairs, MapOf, ConcatState, Sorted, WellFormed, RestSize, ItemSize, Builder.Valid;
    if s1idx < Count(s1) { RestStep(s1, s1idx); }
    if s2idx < Count(s2) { RestStep(s2, s2idx); }
    ghost var p, q := Pairs(s1), Pairs(s2);
    i, j := s1idx, s2idx;
    var difference :=
      if s1idx >= Count(s1) then 1 else if s2idx >= Count(s2) then -1 else Difference(s1, s1idx, s2, s2idx);
    if difference >= 0 {
      TakeSecond(out.ps, p, s1idx, q, s2idx);
      if s1idx < Count(s1) { KeyCmpZero(p[s1idx].key, q[s2idx].key); }
      out.CopyItem(s2, s2idx);
      j := j + 1;
      if difference == 0 { i := i + 1; }
    } else {
      TakeFirst(out.ps, p, s1idx, q, s2idx);
      out.CopyItem(s1, s1idx);
      i := i + 1;
    }
  }

  /** hstore_concat: the union of the maps in which the second operand wins, canonical again. */
  method HStoreConcat(s1: HStore, s2: HStore) returns (r: HStore)
    requires Canonical(s1) && Canonical(s2)
    ensures Canonical(r) && Content(r) == Content(s1) + Content(s2)
  {
    hide Pairs, MapOf, ConcatState, Sorted, WellFormed, RestSize, Builder.Valid;
    var s1count, s2count := Count(s1), Count(s2);
    if s1count == 0 { EmptyContent(s1); return s2; }
    if s2count == 0 { EmptyContent(s2); return s1; }
    var out := new Builder(s1count + s2count, |s1.str| + |s2.str|);
    var s1idx, s2idx: nat := 0, 0;
    ConcatStart(Pairs(s1), Pairs(s2));
    RestAll(s1);
    RestAll(s2);
    while s1idx < s1count || s2idx < s2count
      invariant s1idx <= s1count && s2idx <= s2count && fresh(out) && fresh(out.mem) && out.Valid()
      invariant out.HasRoom(s1count - s1idx + s2count - s2idx, RestSize(s1, s1idx) + RestSize(s2, s2idx))
      invariant ConcatState(out.ps, Pairs(s1), s1idx, Pairs(s2), s2idx)
      decreases s1count - s1idx + s2count - s2idx
    {
      s1idx, s2idx := ConcatStep(out, s1, s1idx, s2, s2idx);
    }
    ConcatDone(out.ps, Pairs(s1), Pairs(s2));
    Built(out.ps);
    r := out.Finalize();
  }

  lemma EmptyContent(h: HStore)
    requires WellFormed(h) && Count(h) == 0
    ensures Content(h) == map[]
  {
  }

  // ----- deletions -----

  /** The part of `m` whose pairs `keep` accepts. */
  ghost function Filter(m: KeyMap, keep: (bytes, Option<bytes>) -> bool): KeyMap {
    map k | k in m && keep(k, m[k]) :: m[k]
  }

  /** `out` is what `keep` accepts of p[..i]. */
  ghost predicate FilterState(out: seq<Pair>, p: seq<Pair>, i: nat, keep: (bytes, Option<bytes>) -> bool) {
    && i <= |p| && Sorted(out) && MapOf(out) == Filter(MapOf(p[..i]), keep)
    && (i < |p| ==> AllBelow(out, p[i].key))
  }

  lemma FilterStep(out: seq<Pair>, p: seq<Pair>, i: nat, keep: (bytes, Option<bytes>) -> bool)
    requires Sorted(p) && i < |p| && FilterState(out, p, i, keep)
    ensures FilterState(if keep(p[i].key, p[i].val) then out + [p[i]] else out, p, i + 1, keep)
  {
    hide MapOf;
    AppendSorted(out, p[i]);
    MapPrefix(p, i);
    MapHas(p[..i]);
    forall k | k in MapOf(p[..i]) ensures k != p[i].key {
      var t :| 0 <= t < |p[..i]| && p[..i][t].key == k;
      assert KeyLess(p[t].key, p[i].key);
      KeyIrreflexive(k);
    }
    if i + 1 < |p| && !keep(p[i].key, p[i].val) {
      forall t | 0 <= t < |out| ensures KeyLess(out[t].key, p[i + 1].key) {
        assert KeyLess(out[t].key, p[i].key);
        KeyTrans(out[t].key, p[i].key, p[i + 1].key);
      }
    }
  }

  lemma FilterStart(p: seq<Pair>, keep: (bytes, Option<bytes>) -> bool)
    ensures FilterState([], p, 0, keep)
  {
    assert p[..0] == [];
  }

  lemma FilterDone(out: seq<Pair>, p: seq<Pair>, keep: (bytes, Option<bytes>) -> bool)
    requires FilterState(out, p, |p|, keep)
    ensures Sorted(out) && MapOf(out) == Filter(MapOf(p), keep)
  {
    assert p[..|p|] == p;
  }

  ghost function Other(key: bytes): (bytes, Option<bytes>) -> bool { (k, v) => k != key }

  /** hstore_delete: the map without one key. */
  method HStoreDelete(hs: HStore, key: bytes) returns (r: HStore)
    requires Canonical(hs)
    ensures Canonical(r) && Content(r) == Content(hs) - {key}
  {
    hide Pairs, MapOf, FilterState, Sorted, WellFormed, RestSize, ItemSize, Builder.Valid;
    var count := Count(hs);
    var out := new Builder(count, |hs.str|);
    FilterStart(Pairs(hs), Other(key));
    RestAll(hs);
    for i := 0 to count
      invariant fresh(out) && fresh(out.mem) && out.Valid() && out.HasRoom(count - i, RestSize(hs, i))
      invariant FilterState(out.ps, Pairs(hs), i, Other(key))
    {
      RestStep(hs, i);
      FilterStep(out.ps, Pairs(hs), i, Other(key));
      if Pairs(hs)[i].key != key {
        out.CopyItem(hs, i);
      }
    }
    FilterDone(out.ps, Pairs(hs), Other(key));
    Built(out.ps);
    r := out.Finalize();
  }

  // ----- deletions that merge with a sorted list -----

  /** The keys before `j` are below `key`. */
  predicate Passed(q: seq<Pair>, j: nat, key: bytes) { j <= |q| && forall t | 0 <= t < j :: KeyLess(q[t].key, key) }

  /** A key that the merge has passed, and that is below the next one, is not in the list. */
  lemma NotListed(q: seq<Pair>, j: nat, key: bytes)
    requires Sorted(q) && Passed(q, j, key) && (j < |q| ==> KeyLess(key, q[j].key))
    ensures key !in MapOf(q)
  {
    MapHas(q);
    if key in MapOf(q) {
      var t :| 0 <= t < |q| && q[t].key == key;
      KeyIrreflexive(key);
      if t > j { assert KeyLess(q[j].key, key); KeyTrans(q[j].key, key, q[j].key); KeyIrreflexive(q[j].key); }
    }
  }

  lemma Listed(q: seq<Pair>, j: nat)
    requires Sorted(q) && j < |q|
    ensures q[j].key in MapOf(q) && MapOf(q)[q[j].key] == q[j].val
  {
    MapHas(q);
  }

  lemma PassedOn(p: seq<Pair>, i: nat, i': nat, q: seq<Pair>, j: nat, j': nat)
    requires Sorted(p) && i < |p| && Passed(q, j, p[i].key) && i <= i' <= i + 1 && j <= j' <= j + 1 && j' <= |q|
    requires j' > j ==> if i' > i then q[j].key == p[i].key else KeyLess(q[j].key, p[i].key)
    ensures i' < |p| ==> Passed(q, j', p[i'].key)
  {
    if i' < |p| {
      forall t | 0 <= t < j' ensures KeyLess(q[t].key, p[i'].key) {
        if i' > i && t < j { KeyTrans(q[t].key, p[i].key, p[i'].key); }
      }
    }
  }

  ghost function Unlisted(q: seq<Pair>): (bytes, Option<bytes>) -> bool { (k, v) => k !in MapOf(q) }

  ghost function Differs(q: seq<Pair>): (bytes, Option<bytes>) -> bool {
    (k, v) => !(k in MapOf(q) && MapOf(q)[k] == v)
  }

  /** One step of the merge in hstore_delete_array (`sameValue` off) or hstore_delete_hstore (on): a
      pair that the list has is dropped, in the latter case only if the values agree. */
  method DeleteStep(out: Builder, hs: HStore, i: nat, q: seq<Pair>, j: nat, sameValue: bool) returns (i': nat, j': nat)
    requires Canonical(hs) && Sorted(q) && i < Count(hs) && out.Valid()
    requires Passed(q, j, Pairs(hs)[i].key)
    requires FilterState(out.ps, Pairs(hs), i, if sameValue then Differs(q) else Unlisted(q))
    requires out.HasRoom(Count(hs) - i, RestSize(hs, i))
    modifies out, out.mem
    ensures out.Valid() && i <= i' <= Count(hs) && j <= j' <= |q| && i' + j' > i + j
    ensures out.HasRoom(Count(hs) - i', RestSize(hs, i'))
    ensures i' < Count(hs) ==> Passed(q, j', Pairs(hs)[i'].key)
    ensures FilterState(out.ps, Pairs(hs), i', if sameValue then Differs(q) else Unlisted(q))
  {
    hide Pairs, MapOf, FilterState, Sorted, WellFormed, Passed, RestSize, ItemSize, Builder.Valid;
    RestStep(hs, i);
    ghost var p, keep := Pairs(hs), if sameValue then Differs(q) else Unlisted(q);
    j' := j;
    JInRange(q, j, p[i].key);
    var difference := if j >= |q| then -1 else KeyCmp(Pairs(hs)[i].key, q[j].key);
    if j < |q| { KeyCmpZero(p[i].key, q[j].key); KeyCmpAnti(p[i].key, q[j].key); }
    if difference > 0 {
      PassedOn(p, i, i, q, j, j + 1);
      return i, j + 1;
    }
    FilterStep(out.ps, p, i, keep);
    if difference == 0 {
      Listed(q, j);
      if sameValue && Pairs(hs)[i].val != q[j].val {
        out.CopyItem(hs, i);
      }
      j' := j + 1;
    } else {
      NotListed(q, j, p[i].key);
      out.CopyItem(hs, i);
    }
    i' := i + 1;
    PassedOn(p, i, i', q, j, j');
  }

  lemma JInRange(q: seq<Pair>, j: nat, key: bytes)
    requires Passed(q, j, key)
    ensures j <= |q|
  {
  }

  /** The merge loop shared by the two deletions. */
  method DeleteMerge(hs: HStore, q: seq<Pair>, sameValue: bool) returns (r: HStore)
    requires Canonical(hs) && Sorted(q)
    ensures Canonical(r) && Content(r) == Filter(Content(hs), if sameValue then Differs(q) else Unlisted(q))
  {
    hide Pairs, MapOf, FilterState, Sorted, WellFormed, Filter, RestSize, Builder.Valid;
    ghost var keep := if sameValue then Differs(q) else Unlisted(q);
    var out := new Builder(Count(hs), |hs.str|);
    var i, j: nat := 0, 0;
    FilterStart(Pairs(hs), keep);
    RestAll(hs);
    while i < Count(hs)
      invariant i <= Count(hs) && j <= |q| && (i < Count(hs) ==> Passed(q, j, Pairs(hs)[i].key))
      invariant fresh(out) && fresh(out.mem) && out.Valid() && out.HasRoom(Count(hs) - i, RestSize(hs, i))
      invariant FilterState(out.ps, Pairs(hs), i, keep)
      decreases Count(hs) - i + |q| - j
    {
      i, j := DeleteStep(out, hs, i, q, j, sameValue);
    }
    FilterDone(out.ps, Pairs(hs), keep);
    Built(out.ps);
    r := out.Finalize();
  }

  /** hstore_delete_array: the map without the listed keys. */
  method HStoreDeleteArray(hs: HStore, names: seq<Option<bytes>>) returns (r: HStore)
    requires Canonical(hs)
    ensures Canonical(r) && Content(r) == Content(hs) - KeySet(names)
  {
    var keyPairs := HStoreArrayToPairs(names);
    if |keyPairs| == 0 { return hs; }
    r := DeleteMerge(hs, keyPairs, false);
  }

  /** hstore_delete_hstore: the map without the pairs, null values included, that both have. */
  method HStoreDeleteHStore(hs: HStore, hs2: HStore) returns (r: HStore)
    requires Canonical(hs) && Canonical(hs2)
    ensures Canonical(r)
    ensures Content(r) == map k | k in Content(hs)
                          && !(k in Content(hs2) && Content(hs2)[k] == Content(hs)[k]) :: Content(hs)[k]
  {
    if Count(hs2) == 0 { EmptyContent(hs2); return hs; }
    r := DeleteMerge(hs, Pairs(hs2), true);
  }
}
