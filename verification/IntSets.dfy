/** Operations on sorted int arrays (contrib/intarray, _int_tool.c), proved against sets. */
module IntSets {
  import opened RangeKeys

  function Elems(s: seq<int>): (e: set<int>)
    ensures forall v :: v in e <==> v in s
  {
    set v | v in s
  }

  predicate Ascending(s: seq<int>) { forall i, j | 0 <= i < j < |s| :: s[i] <= s[j] }

  lemma ElemsAppend(s: seq<int>, v: int)
    ensures Elems(s + [v]) == Elems(s) + {v}
  {
  }

  lemma ElemsPrefix(s: seq<int>, i: nat)
    requires i < |s|
    ensures Elems(s[..i + 1]) == Elems(s[..i]) + {s[i]}
  {
    assert s[..i + 1] == s[..i] + [s[i]];
  }

  /** `kept` is what remains of the first `n` elements of `s` without repetitions. */
  predicate Unrepeated(kept: seq<int>, s: seq<int>, n: nat) {
    0 < n <= |s| && 0 < |kept| <= n && Increasing(kept) && kept[|kept| - 1] == s[n - 1] && Elems(kept) == Elems(s[..n])
  }

  lemma UnrepeatedStep(kept: seq<int>, s: seq<int>, n: nat)
    requires Ascending(s) && n < |s| && Unrepeated(kept, s, n)
    ensures Unrepeated(if s[n] != kept[|kept| - 1] then kept + [s[n]] else kept, s, n + 1)
  {
    ElemsPrefix(s, n);
    ElemsAppend(kept, s[n]);
    assert s[n - 1] <= s[n];
    assert s[n - 1] in s[..n];
  }

  method Store(dr: array<int>, n: nat, v: int)
    requires n < dr.Length
    modifies dr
    ensures dr[..n + 1] == old(dr[..n]) + [v]
    ensures forall k | n < k < dr.Length :: dr[k] == old(dr[k])
  {
    dr[n] := v;
  }

  method Keep(a: array<int>, dr: nat, tmp: nat, ghost s: seq<int>)
    requires 0 < dr <= tmp < a.Length && tmp < |s| && Ascending(s) && a[tmp] == s[tmp] != a[dr - 1]
    requires Unrepeated(a[..dr], s, tmp)
    modifies a
    ensures Unrepeated(a[..dr + 1], s, tmp + 1)
    ensures forall k | dr < k < a.Length :: a[k] == old(a[k])
  {
    UnrepeatedStep(a[..dr], s, tmp);
    assert a[dr - 1] == a[..dr][dr - 1];
    Store(a, dr, a[tmp]);
  }

  /** _int_unique: removes repetitions from the first `num` elements in place. */
  method IntUnique(a: array<int>, num: nat) returns (n: nat)
    requires num <= a.Length && Ascending(a[..num])
    modifies a
    ensures n <= num && Increasing(a[..n]) && Elems(a[..n]) == old(Elems(a[..num]))
  {
    if num < 2 { return num; }
    ghost var s := a[..num];
    var tmp, dr: nat := 0, 0;
    assert s[..1] == a[..1] && s[..num] == s;
    assert Unrepeated(a[..1], s, 1);
    hide Unrepeated, Elems;
    while tmp < num
      invariant dr <= tmp <= num && dr < num && (tmp > 0 ==> dr < tmp)
      invariant forall k | tmp <= k < num :: a[k] == s[k]
      invariant Unrepeated(a[..dr + 1], s, if tmp == 0 then 1 else tmp)
      invariant tmp == 0 ==> dr == 0
    {
      if a[tmp] != a[dr] {
        dr := dr + 1;
        Keep(a, dr, tmp, s);
        tmp := tmp + 1;
      } else {
        if tmp > 0 { UnrepeatedStep(a[..dr + 1], s, tmp); }
        assert a[dr] == a[..dr + 1][dr];
        tmp := tmp + 1;
      }
    }
    n := dr + 1;
    UnrepeatedDone(a[..n], s);
  }

  lemma UnrepeatedDone(kept: seq<int>, s: seq<int>)
    requires Unrepeated(kept, s, |s|)
    ensures Increasing(kept) && |kept| <= |s| && Elems(kept) == Elems(s)
  {
    assert s[..|s|] == s;
  }

  /** inner_int_contains: does `a` contain all of `b`? */
  method InnerIntContains(da: seq<int>, db: seq<int>) returns (r: bool)
    requires Increasing(da) && Increasing(db)
    ensures r <==> Elems(db) <= Elems(da)
  {
    var i, j, n := 0, 0, 0;
    while i < |da| && j < |db|
      invariant 0 <= i <= |da| && 0 <= j <= |db| && n == j
      invariant forall k | 0 <= k < j :: db[k] in da
      invariant j < |db| ==> forall k | 0 <= k < i :: da[k] < db[j]
    {
      if da[i] < db[j] {
        i := i + 1;
      } else if da[i] == db[j] {
        n, i, j := n + 1, i + 1, j + 1;
      } else {
        assert db[j] !in da;
        break;
      }
    }
    r := n == |db|;
    if j < |db| { assert db[j] !in da && db[j] in Elems(db); }
  }

  /** inner_int_overlap: do `a` and `b` have an element in common? */
  method InnerIntOverlap(da: seq<int>, db: seq<int>) returns (r: bool)
    requires Ascending(da) && Ascending(db)
    ensures r <==> Elems(da) * Elems(db) != {}
  {
    var i, j := 0, 0;
    while i < |da| && j < |db|
      invariant 0 <= i <= |da| && 0 <= j <= |db|
      invariant forall k | 0 <= k < i :: da[k] !in db
      invariant forall k | 0 <= k < j :: db[k] !in da
    {
      if da[i] < db[j] {
        forall k | 0 <= k < |db| ensures db[k] != da[i] { if k >= j { assert db[j] <= db[k]; } }
        i := i + 1;
      } else if da[i] == db[j] {
        assert da[i] in Elems(da) * Elems(db);
        return true;
      } else {
        forall k | 0 <= k < |da| ensures da[k] != db[j] { if k >= i { assert da[i] <= da[k]; } }
        j := j + 1;
      }
    }
    assert forall v | v in Elems(da) :: v !in Elems(db);
    r := false;
  }

  /** `s` is a merge of the first `i` elements of `da` and the first `j` of `db`. */
  predicate Merged(s: seq<int>, da: seq<int>, db: seq<int>, i: nat, j: nat) {
    && i <= |da| && j <= |db| && |s| <= i + j
    && Ascending(s) && Elems(s) == Elems(da[..i]) + Elems(db[..j])
    && (forall v | v in s :: (i < |da| ==> v <= da[i]) && (j < |db| ==> v <= db[j]))
  }

  lemma MergeStep(s: seq<int>, da: seq<int>, db: seq<int>, i: nat, j: nat, i': nat, j': nat, v: int)
    requires Ascending(da) && Ascending(db) && Merged(s, da, db, i, j)
    requires i <= i' <= i + 1 && j <= j' <= j + 1 && i' + j' > i + j
    requires i' > i ==> i < |da| && da[i] == v
    requires j' > j ==> j < |db| && db[j] == v
    requires i' == i && i < |da| ==> v <= da[i]
    requires j' == j && j < |db| ==> v <= db[j]
    ensures Merged(s + [v], da, db, i', j')
  {
    ElemsAppend(s, v);
    if i' > i { ElemsPrefix(da, i); }
    if j' > j { ElemsPrefix(db, j); }
    forall w | w in s + [v] ensures (i' < |da| ==> w <= da[i']) && (j' < |db| ==> w <= db[j']) {
      assert w in s || w == v;
      assert (i < i' < |da| ==> da[i] <= da[i']) && (j < j' < |db| ==> db[j] <= db[j']);
    }
    assert forall k | 0 <= k < |s| :: s[k] <= v by { assert forall k | 0 <= k < |s| :: s[k] in s; }
  }

  lemma MergeStart(da: seq<int>, db: seq<int>)
    ensures Merged([], da, db, 0, 0)
  {
    assert da[..0] == db[..0] == [];
  }

  lemma MergeDone(s: seq<int>, da: seq<int>, db: seq<int>)
    requires Merged(s, da, db, |da|, |db|)
    ensures Ascending(s) && Elems(s) == Elems(da) + Elems(db)
  {
    assert da[..|da|] == da && db[..|db|] == db;
  }

  /** Writes the next element of the merge. */
  method Emit(dr: array<int>, n: nat, v: int, ghost da: seq<int>, ghost db: seq<int>,
              ghost i: nat, ghost j: nat, ghost i': nat, ghost j': nat)
    requires Ascending(da) && Ascending(db) && n < dr.Length && Merged(dr[..n], da, db, i, j)
    requires i <= i' <= i + 1 && j <= j' <= j + 1 && i' + j' > i + j
    requires (i' > i ==> i < |da| && da[i] == v) && (j' > j ==> j < |db| && db[j] == v)
    requires (i' == i && i < |da| ==> v <= da[i]) && (j' == j && j < |db| ==> v <= db[j])
    modifies dr
    ensures Merged(dr[..n + 1], da, db, i', j')
  {
    MergeStep(dr[..n], da, db, i, j, i', j', v);
    Store(dr, n, v);
  }

  /** inner_int_union: merges sorted arrays, then removes what repetitions they have of their own. */
  method InnerIntUnion(da: seq<int>, db: seq<int>) returns (r: seq<int>)
    requires Ascending(da) && Ascending(db)
    ensures Increasing(r) && Elems(r) == Elems(da) + Elems(db)
  {
    hide Merged, Elems, Increasing, Ascending;
    var dr := new int[|da| + |db|](_ => 0);
    var n: nat := 0;
    var i, j := 0, 0;
    assert dr[..0] == [];
    MergeStart(da, db);
    while i < |da| && j < |db|
      invariant 0 <= i <= |da| && 0 <= j <= |db| && n <= i + j && Merged(dr[..n], da, db, i, j)
      decreases |da| - i + |db| - j
    {
      if da[i] == db[j] {
        Emit(dr, n, da[i], da, db, i, j, i + 1, j + 1);
        n, i, j := n + 1, i + 1, j + 1;
      } else if da[i] < db[j] {
        Emit(dr, n, da[i], da, db, i, j, i + 1, j);
        n, i := n + 1, i + 1;
      } else {
        Emit(dr, n, db[j], da, db, i, j, i, j + 1);
        n, j := n + 1, j + 1;
      }
    }
    while i < |da|
      invariant i <= |da| && j <= |db| && n <= i + j && (i < |da| ==> j == |db|) && Merged(dr[..n], da, db, i, j)
    {
      Emit(dr, n, da[i], da, db, i, j, i + 1, j);
      n, i := n + 1, i + 1;
    }
    while j < |db|
      invariant i == |da| && j <= |db| && n <= i + j && Merged(dr[..n], da, db, i, j)
    {
      Emit(dr, n, db[j], da, db, i, j, i, j + 1);
      n, j := n + 1, j + 1;
    }
    assert i == |da| && j == |db|;
    MergeDone(dr[..n], da, db);
    n := IntUnique(dr, n);
    r := dr[..n];
  }
}