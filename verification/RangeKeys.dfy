/** Compressed internal keys of gist__int_ops: big integer sets rewritten in place as 100 ranges. */
module RangeKeys {
  import opened Common

  const MAXNUMRANGE := 100
  const MAXNUMELTS := 67108863 // half of the smaller of MaxAllocSize / 8 and (MaxAllocSize - 24) / 4
  const INT32_MIN := -0x8000_0000
  const INT32_MAX := 0x7fff_ffff

  predicate Increasing(x: seq<int>) { forall i, j | 0 <= i < j < |x| :: x[i] < x[j] }

  predicate Int32s(x: seq<int>) { forall i | 0 <= i < |x| :: INT32_MIN <= x[i] <= INT32_MAX }

  // ----- blocks of a sorted key: `e` lists the index of the last element of each block -----

  /** `e` cuts x[from..n] into consecutive non-empty blocks. */
  predicate Cuts(e: seq<nat>, from: nat, n: nat)
    decreases |e|
  {
    if |e| == 0 then from == n else from <= e[0] < n && Cuts(e[1..], e[0] + 1, n)
  }

  /** The first and the last element of every block, in order. */
  function Flat(x: seq<int>, e: seq<nat>, from: nat): (s: seq<int>)
    requires Cuts(e, from, |x|)
    ensures |s| == 2 * |e|
    decreases |e|
  {
    if |e| == 0 then [] else [x[from], x[e[0]]] + Flat(x, e[1..], e[0] + 1)
  }

  function Gap(x: seq<int>, k: nat): int
    requires k + 1 < |x|
  {
    x[k + 1] - x[k]
  }

  /** Every gap inside a block is at most `theta`, and every gap between two blocks at least `theta`. */
  predicate Greedy(x: seq<int>, e: seq<nat>, from: nat, theta: int)
    requires Cuts(e, from, |x|)
    decreases |e|
  {
    |e| > 0 ==>
      && (forall k | from <= k < e[0] :: Gap(x, k) <= theta)
      && (|e| > 1 ==> e[0] + 1 < |x| && Gap(x, e[0]) >= theta)
      && Greedy(x, e[1..], e[0] + 1, theta)
  }

  lemma Prepend(x: seq<int>, e: seq<nat>, from: nat, from': nat)
    requires Increasing(x) && from' < from <= |x| && Cuts(e, from, |x|) && Greedy(x, e, from, 1)
    requires forall k | from' <= k < from - 1 :: Gap(x, k) == 1
    ensures Cuts([from - 1] + e, from', |x|) && Greedy(x, [from - 1] + e, from', 1)
    ensures Flat(x, [from - 1] + e, from') == [x[from'], x[from - 1]] + Flat(x, e, from)
  {
    var e' := [from - 1] + e;
    assert e'[1..] == e;
    assert |e| > 0 ==> from < |x|;
  }

  /** One range written in front of the ranges already in place. */
  method PutRange(dr: array<int>, j: nat, lo: int, hi: int, ghost keep: nat)
    requires 2 * j + 1 < dr.Length && keep <= 2 * j
    modifies dr
    ensures dr[..keep] == old(dr[..keep]) && dr[2 * j..] == [lo, hi] + old(dr[2 * j + 2..])
  {
    ghost var tail := dr[2 * j + 2..];
    dr[2 * j] := lo;
    dr[2 * j + 1] := hi;
    assert dr[2 * j + 2..] == tail;
    assert dr[2 * j..] == [dr[2 * j], dr[2 * j + 1]] + dr[2 * j + 2..];
  }

  /** The inner loop: walks down a run of consecutive integers while removals are left. */
  method RunStart(dr: array<int>, top: nat, lenr0: nat, ghost x: seq<int>)
    returns (r_start: int, i: nat, lenr: nat)
    requires top < |x| <= dr.Length && dr[..top + 1] == x[..top + 1]
    ensures i <= top && r_start == x[i] && top - i == lenr0 - lenr
    ensures forall k | i <= k < top :: Gap(x, k) == 1
  {
    r_start, i, lenr := dr[top], top, lenr0;
    assert forall k | 0 <= k <= top :: dr[k] == dr[..top + 1][k] == x[k];
    while i > 0 && lenr > 0 && dr[i - 1] == r_start - 1
      invariant i <= top && top - i == lenr0 - lenr
      invariant r_start == x[i]
      invariant forall k | i <= k < top :: Gap(x, k) == 1
    {
      r_start, i, lenr := r_start - 1, i - 1, lenr - 1;
    }
  }

  /** One range: the run that ends at `i` (the element itself once no removals are left) is written
      in front of the ranges already in place. */
  method EmitRun(dr: array<int>, n: nat, i: nat, j: nat, lenr: nat, ghost x: seq<int>, ghost e: seq<nat>)
    returns (i': int, lenr': nat, ghost e': seq<nat>)
    requires i <= j < n == |x| && dr.Length == 2 * n && Increasing(x) && dr[..i + 1] == x[..i + 1]
    requires Cuts(e, i + 1, n) && Greedy(x, e, i + 1, 1) && dr[2 * (j + 1)..] == Flat(x, e, i + 1)
    modifies dr
    ensures -1 <= i' < i && i - 1 - i' == lenr - lenr' && |e'| == |e| + 1
    ensures dr[..i' + 1] == x[..i' + 1]
    ensures Cuts(e', i' + 1, n) && Greedy(x, e', i' + 1, 1) && dr[2 * j..] == Flat(x, e', i' + 1)
  {
    hide Cuts, Flat, Greedy;
    var r_end := dr[i];
    assert dr[..i + 1][i] == x[..i + 1][i];
    var r_start, start;
    r_start, start, lenr' := RunStart(dr, i, lenr, x);
    Prepend(x, e, i + 1, start);
    e' := [i] + e;
    assert dr[..start] == dr[..i + 1][..start];
    PutRange(dr, j, r_start, r_end, start);
    i' := start as int - 1;
    assert x[..i + 1][..start] == x[..start];
  }

  /** First phase: runs of consecutive integers become ranges, from the right, until no more than
      100 ranges are left or the key is used up; then everything moves to the start of the array. */
  method MergeRuns(dr: array<int>, n: nat, ghost x: seq<int>) returns (len: nat, ghost e: seq<nat>)
    requires n == |x| >= 2 * MAXNUMRANGE && dr.Length == 2 * n && dr[..n] == x && Increasing(x)
    modifies dr
    ensures MAXNUMRANGE <= |e| <= n && len == 2 * |e|
    ensures Cuts(e, 0, n) && Greedy(x, e, 0, 1) && dr[..len] == Flat(x, e, 0)
  {
    hide Cuts, Flat, Greedy;
    var lenr: nat := n - MAXNUMRANGE;
    var i, j := n - 1, n - 1;
    e := [];
    NoBlocks(x);
    assert x[..n] == x;
    assert dr[2 * (j + 1)..] == [];
    while i > 0 && lenr > 0
      invariant -1 <= i <= j < n && j - i + lenr == n - MAXNUMRANGE && |e| == n - 1 - j
      invariant dr[..i + 1] == x[..i + 1]
      invariant Cuts(e, i + 1, n) && Greedy(x, e, i + 1, 1) && dr[2 * (j + 1)..] == Flat(x, e, i + 1)
    {
      i, lenr, e := EmitRun(dr, n, i, j, lenr, x, e);
      j := j - 1;
    }
    while i >= 0
      invariant -1 <= i <= j < n && j - i + lenr == n - MAXNUMRANGE && |e| == n - 1 - j
      invariant dr[..i + 1] == x[..i + 1]
      invariant Cuts(e, i + 1, n) && Greedy(x, e, i + 1, 1) && dr[2 * (j + 1)..] == Flat(x, e, i + 1)
    {
      ghost var none;
      i, none, e := EmitRun(dr, n, i, j, 0, x, e);
      j := j - 1;
    }
    len := ShuntDown(dr, n, j + 1);
  }

  /** Moves the ranges to the start of the array, unless they are there. */
  method ShuntDown(dr: array<int>, n: nat, j: nat) returns (len: nat)
    requires j <= n && dr.Length == 2 * n
    modifies dr
    ensures len == 2 * (n - j) && dr[..len] == old(dr[2 * j..])
  {
    len := 2 * (n - j);
    if j != 0 {
      assert dr[2 * j..] == dr[2 * j..2 * j + len];
      MoveDown(dr, 0, 2 * j, len);
    }
  }

  lemma NoBlocks(x: seq<int>)
    ensures Cuts([], |x|, |x|) && Greedy(x, [], |x|, 1) && Flat(x, [], |x|) == []
  {
  }

  // ----- closing the narrowest gap -----

  /** The definitions above, unfolded once. */
  lemma Step(x: seq<int>, e: seq<nat>, from: nat, theta: int)
    requires |e| > 0
    ensures Cuts(e, from, |x|) <==> from <= e[0] < |x| && Cuts(e[1..], e[0] + 1, |x|)
    ensures Cuts(e, from, |x|) ==> Flat(x, e, from) == [x[from], x[e[0]]] + Flat(x, e[1..], e[0] + 1)
    ensures Cuts(e, from, |x|) ==>
              (Greedy(x, e, from, theta) <==>
               && (forall k | from <= k < e[0] :: Gap(x, k) <= theta)
               && (|e| > 1 ==> e[0] + 1 < |x| && Gap(x, e[0]) >= theta)
               && Greedy(x, e[1..], e[0] + 1, theta))
    ensures Cuts(e, from, |x|) && |e| > 1 ==> e[0] + 1 < |x| && Flat(x, e[1..], e[0] + 1)[0] == x[e[0] + 1]
  {
  }

  lemma {:induction false} GapAt(x: seq<int>, e: seq<nat>, from: nat, c: nat)
    requires Cuts(e, from, |x|) && 0 < c < |e|
    ensures e[c - 1] + 1 < |x|
    ensures Flat(x, e, from)[2 * c] - Flat(x, e, from)[2 * c - 1] == Gap(x, e[c - 1])
    decreases |e|
  {
    hide Cuts, Flat, Greedy;
    Step(x, e, from, 0);
    if c > 1 {
      GapAt(x, e[1..], e[0] + 1, c - 1);
    }
  }

  /** Every gap between two blocks is at least `theta`. */
  predicate Wide(x: seq<int>, e: seq<nat>, theta: int) {
    forall t | 0 <= t < |e| - 1 :: e[t] + 1 < |x| && Gap(x, e[t]) >= theta
  }

  /** Dropping cut c-1 joins blocks c-1 and c. */
  lemma {:induction false} Join(x: seq<int>, e: seq<nat>, from: nat, c: nat, theta: int, theta': int)
    requires Cuts(e, from, |x|) && 0 < c < |e| && theta <= theta'
    requires Greedy(x, e, from, theta) && Wide(x, e, theta') && Gap(x, e[c - 1]) == theta'
    ensures var e', s := e[..c - 1] + e[c..], Flat(x, e, from);
            Cuts(e', from, |x|) && Greedy(x, e', from, theta') && Flat(x, e', from) == s[..2 * c - 1] + s[2 * c + 1..]
    decreases |e|
  {
    hide Cuts, Flat, Greedy;
    var e', d := e[..c - 1] + e[c..], e[1..];
    Step(x, e, from, theta);
    assert Wide(x, d, theta') by { assert forall t | 0 <= t < |d| - 1 :: d[t] == e[t + 1]; }
    if c == 1 {
      assert e' == d;
      JoinFirst(x, e, from, theta, theta');
    } else {
      var s, tail := Flat(x, e, from), Flat(x, d, e[0] + 1);
      assert d[c - 2] == e[c - 1];
      Join(x, d, e[0] + 1, c - 1, theta, theta');
      assert e'[0] == e[0] && e'[1..] == d[..c - 2] + d[c - 1..];
      Step(x, e', from, theta');
      assert s == [x[from], x[e[0]]] + tail;
      assert s[..2 * c - 1] + s[2 * c + 1..] == [x[from], x[e[0]]] + (tail[..2 * c - 3] + tail[2 * c - 1..]);
    }
  }

  lemma JoinFirst(x: seq<int>, e: seq<nat>, from: nat, theta: int, theta': int)
    requires Cuts(e, from, |x|) && |e| > 1 && theta <= theta'
    requires Greedy(x, e, from, theta) && Wide(x, e, theta') && Gap(x, e[0]) == theta'
    ensures var s := Flat(x, e, from);
            Cuts(e[1..], from, |x|) && Greedy(x, e[1..], from, theta') && Flat(x, e[1..], from) == s[..1] + s[3..]
  {
    hide Cuts, Flat, Greedy;
    var d := e[1..];
    Step(x, e, from, theta);
    Step(x, d, e[0] + 1, theta);
    Step(x, d, from, theta');
    var tail := Flat(x, d[1..], d[0] + 1);
    var s := Flat(x, e, from);
    assert s[..1] == [x[from]];
    assert s[3..] == [x[d[0]]] + tail;
    assert Wide(x, d[1..], theta') by { assert forall t | 0 <= t < |d[1..]| - 1 :: d[1..][t] == e[t + 2]; }
    assert |d| > 1 ==> d[0] == e[1];
    Raise(x, d[1..], d[0] + 1, theta, theta');
  }

  lemma {:induction false} Raise(x: seq<int>, e: seq<nat>, from: nat, theta: int, theta': int)
    requires Cuts(e, from, |x|) && Greedy(x, e, from, theta) && theta <= theta' && Wide(x, e, theta')
    ensures Greedy(x, e, from, theta')
    decreases |e|
  {
    if |e| > 0 {
      assert Wide(x, e[1..], theta') by { assert forall t | 0 <= t < |e| - 2 :: e[1..][t] == e[t + 1]; }
      Raise(x, e[1..], e[0] + 1, theta, theta');
    }
  }

  /** The gap before position `cand` is the first of the narrowest gaps of the ranges in `s`. */
  predicate NarrowestAt(s: seq<int>, cand: nat) {
    && 0 < cand < |s| && cand % 2 == 0
    && (forall c | 0 < c < |s| / 2 :: s[cand] - s[cand - 1] <= s[2 * c] - s[2 * c - 1])
    && (forall c | 0 < c < cand / 2 :: s[cand] - s[cand - 1] < s[2 * c] - s[2 * c - 1])
  }

  /** The scan for the narrowest gap; the first one wins a tie. */
  method Narrowest(dr: array<int>, len: nat) returns (cand: nat)
    requires 2 < len <= dr.Length && len % 2 == 0 && Int32s(dr[..len])
    ensures NarrowestAt(dr[..len], cand)
  {
    assert forall p | 0 <= p < len :: dr[p] == dr[..len][p];
    var min := 0x7fff_ffff_ffff_ffff;
    cand := 1;
    var i := 2;
    while i < len
      invariant 2 <= i <= len && i % 2 == 0
      invariant 0 < cand < i
      invariant if i == 2 then min == 0x7fff_ffff_ffff_ffff else cand % 2 == 0 && min == dr[cand] - dr[cand - 1]
      invariant forall c | 0 < c < i / 2 :: min <= dr[2 * c] - dr[2 * c - 1]
      invariant forall c | 0 < c < cand / 2 :: min < dr[2 * c] - dr[2 * c - 1]
    {
      if min > dr[i] - dr[i - 1] {
        min := dr[i] - dr[i - 1];
        cand := i;
      }
      i := i + 2;
    }
  }

  lemma {:induction false} FlatInt32(x: seq<int>, e: seq<nat>, from: nat)
    requires Int32s(x) && Cuts(e, from, |x|)
    ensures Int32s(Flat(x, e, from))
    decreases |e|
  {
    if |e| > 0 { FlatInt32(x, e[1..], e[0] + 1); }
  }

  method CloseOne(dr: array<int>, len: nat, ghost x: seq<int>, ghost e: seq<nat>, ghost theta: int)
    returns (ghost e': seq<nat>, ghost theta': int)
    requires 2 < len <= dr.Length && len == 2 * |e|
    requires Int32s(x) && Cuts(e, 0, |x|) && Greedy(x, e, 0, theta) && dr[..len] == Flat(x, e, 0)
    modifies dr
    ensures |e'| == |e| - 1 && theta' >= theta
    ensures Cuts(e', 0, |x|) && Greedy(x, e', 0, theta') && dr[..len - 2] == Flat(x, e', 0)
  {
    hide Cuts, Flat, Greedy, Gap, NarrowestAt;
    ghost var s := Flat(x, e, 0);
    FlatInt32(x, e, 0);
    var cand := Narrowest(dr, len);
    ghost var c := cand / 2;
    theta' := WidenTo(x, e, cand, c, theta);
    e' := e[..c - 1] + e[c..];
    assert dr[..cand - 1] == s[..cand - 1] && dr[cand + 1..len] == s[cand + 1..];
    MoveDown(dr, cand - 1, cand + 1, len - cand - 1);
  }

  /** Second phase: while there are more than 100 ranges, close the first of the narrowest gaps. */
  method CloseGaps(dr: array<int>, n: nat, ghost x: seq<int>, ghost e0: seq<nat>)
    returns (len: nat, ghost e: seq<nat>, ghost theta: int)
    requires 2 * MAXNUMRANGE <= n <= dr.Length && n == 2 * |e0|
    requires Int32s(x) && Cuts(e0, 0, |x|) && Greedy(x, e0, 0, 1) && dr[..n] == Flat(x, e0, 0)
    modifies dr
    ensures len == 2 * MAXNUMRANGE == 2 * |e| && len <= dr.Length && theta >= 1
    ensures Cuts(e, 0, |x|) && Greedy(x, e, 0, theta) && dr[..len] == Flat(x, e, 0)
  {
    hide Cuts, Flat, Greedy;
    len, e, theta := n, e0, 1;
    while len > MAXNUMRANGE * 2
      invariant 2 * MAXNUMRANGE <= len <= dr.Length && len == 2 * |e| && theta >= 1
      invariant Cuts(e, 0, |x|) && Greedy(x, e, 0, theta) && dr[..len] == Flat(x, e, 0)
    {
      e, theta := CloseOne(dr, len, x, e, theta);
      len := len - 2;
    }
  }

  /** The narrowest gap is at least the previous threshold, and becomes the next one. */
  lemma WidenTo(x: seq<int>, e: seq<nat>, cand: nat, c: nat, theta: int) returns (theta': int)
    requires Cuts(e, 0, |x|) && Greedy(x, e, 0, theta)
    requires NarrowestAt(Flat(x, e, 0), cand) && c == cand / 2
    ensures theta' >= theta && cand == 2 * c && 0 < c < |e|
    ensures var e', s := e[..c - 1] + e[c..], Flat(x, e, 0);
            Cuts(e', 0, |x|) && Greedy(x, e', 0, theta') && Flat(x, e', 0) == s[..cand - 1] + s[cand + 1..]
  {
    hide Cuts, Flat, Greedy;
    GapAt(x, e, 0, c);
    theta' := Gap(x, e[c - 1]);
    forall t | 0 <= t < |e| - 1 ensures e[t] + 1 < |x| && Gap(x, e[t]) >= theta' {
      GapAt(x, e, 0, t + 1);
      assert e[t + 1 - 1] == e[t];
    }
    KeptWide(x, e, 0, c, theta);
    Join(x, e, 0, c, theta, theta');
  }

  lemma {:induction false} KeptWide(x: seq<int>, e: seq<nat>, from: nat, c: nat, theta: int)
    requires Cuts(e, from, |x|) && Greedy(x, e, from, theta) && 0 < c < |e|
    ensures e[c - 1] + 1 < |x| && Gap(x, e[c - 1]) >= theta
    decreases |e|
  {
    if c > 1 { KeptWide(x, e[1..], e[0] + 1, c - 1, theta); }
  }

  // ----- the integers a key stands for -----

  function Interval(lo: int, hi: int): (s: set<int>)
    ensures forall v :: v in s <==> lo <= v <= hi
    decreases hi - lo
  {
    if lo > hi then {} else Interval(lo, hi - 1) + {hi}
  }

  /** The integers of the ranges in `s`. */
  function Ints(s: seq<int>): set<int>
    requires |s| % 2 == 0
    decreases |s|
  {
    if |s| == 0 then {} else Interval(s[0], s[1]) + Ints(s[2..])
  }

  /** Disjoint ranges in increasing order. */
  predicate RangeKey(s: seq<int>)
    decreases |s|
  {
    |s| % 2 == 0 && (|s| > 0 ==> s[0] <= s[1] && (|s| > 2 ==> s[1] < s[2]) && RangeKey(s[2..]))
  }

  function Total(s: seq<int>): int
    requires |s| % 2 == 0
    decreases |s|
  {
    if |s| == 0 then 0 else s[1] - s[0] + 1 + Total(s[2..])
  }

  lemma {:induction false} FlatIsRangeKey(x: seq<int>, e: seq<nat>, from: nat)
    requires Increasing(x) && Cuts(e, from, |x|)
    ensures RangeKey(Flat(x, e, from)) && (|e| > 0 ==> Flat(x, e, from)[0] == x[from])
    decreases |e|
  {
    if |e| > 0 {
      FlatIsRangeKey(x, e[1..], e[0] + 1);
      assert Flat(x, e, from)[2..] == Flat(x, e[1..], e[0] + 1);
    }
  }

  /** What internal_size adds up from index i on: each range's length, but nothing for a range that
      begins where the one before it ends. */
  function Counted(a: seq<int>, i: nat): int
    requires |a| % 2 == 0 && i % 2 == 0
    decreases |a| - i
  {
    if i >= |a| then 0 else (if i == 0 || a[i] != a[i - 1] then a[i + 1] - a[i] + 1 else 0) + Counted(a, i + 2)
  }

  /** internal_size: the sum, or -1 when it does not fit in an int; on disjoint ranges in increasing
      order the sum is their total. */
  method InternalSize(a: seq<int>) returns (size: int)
    requires |a| % 2 == 0
    ensures size == if INT32_MIN <= Counted(a, 0) <= INT32_MAX then Counted(a, 0) else -1
    ensures RangeKey(a) ==> Counted(a, 0) == Total(a) >= 0
  {
    hide Total, RangeKey, Counted;
    var sum := 0;
    var i := 0;
    while i < |a|
      invariant 0 <= i <= |a| && i % 2 == 0
      invariant sum + Counted(a, i) == Counted(a, 0)
    {
      CountedStep(a, i);
      if i == 0 || a[i] != a[i - 1] {
        sum := sum + a[i + 1] - a[i] + 1;
      }
      i := i + 2;
    }
    CountedStep(a, i);
    assert a[0..] == a;
    if RangeKey(a) { CountedIsTotal(a, 0); TotalNonNegative(a); }
    if sum > INT32_MAX || sum < INT32_MIN { return -1; }
    size := sum;
  }

  lemma CountedStep(a: seq<int>, i: nat)
    requires |a| % 2 == 0 && i % 2 == 0 && i <= |a|
    ensures i == |a| ==> Counted(a, i) == 0
    ensures i < |a| ==>
              Counted(a, i) == (if i == 0 || a[i] != a[i - 1] then a[i + 1] - a[i] + 1 else 0) + Counted(a, i + 2)
  {
  }

  lemma {:induction false} CountedIsTotal(a: seq<int>, i: nat)
    requires |a| % 2 == 0 && i % 2 == 0 && i <= |a| && RangeKey(a[i..]) && (0 < i < |a| ==> a[i - 1] < a[i])
    ensures Counted(a, i) == Total(a[i..])
    decreases |a| - i
  {
    hide RangeKey, Total, Counted;
    TotalSuffix(a, i);
    CountedStep(a, i);
    if i < |a| { CountedIsTotal(a, i + 2); }
  }

  /** Ranges in order, where one may begin at the end of the one before. */
  predicate Touching(a: seq<int>) { |a| % 2 == 0 && forall k | 0 <= k < |a| - 1 :: a[k] <= a[k + 1] }

  /** A range that begins where the one before it ends. */
  predicate Repeats(a: seq<int>, i: nat)
    requires i < |a|
  {
    i % 2 == 0 && i > 0 && a[i] == a[i - 1]
  }

  /** What the count leaves out from index i on. */
  function Skipped(a: seq<int>, i: nat): nat
    requires Touching(a) && i % 2 == 0
    decreases |a| - i
  {
    if i >= |a| then 0 else (if i == 0 || a[i] != a[i - 1] then 0 else a[i + 1] - a[i]) + Skipped(a, i + 2)
  }

  /** From index i on, the integers of the ranges other than the one they may begin with. */
  function IntsAfter(a: seq<int>, i: nat): set<int>
    requires |a| % 2 == 0 && i % 2 == 0 && i <= |a|
  {
    Ints(a[i..]) - if i == 0 then {} else {a[i - 1]}
  }

  /** Where the part of the range at index i begins that is not in the one before. */
  function NewFrom(a: seq<int>, i: nat): int
    requires i < |a|
  {
    if i == 0 || a[i] != a[i - 1] then a[i] else a[i] + 1
  }

  lemma {:induction false} CountedAndSkipped(a: seq<int>, i: nat)
    requires Touching(a) && i % 2 == 0 && i <= |a|
    ensures |IntsAfter(a, i)| == Counted(a, i) + Skipped(a, i)
    ensures NoneBelow(a, i)
    decreases |a| - i
  {
    hide Interval, Ints, Counted, Touching, IntsAfter;
    assert |a| % 2 == 0 by { TouchingEven(a); }
    CountedStep(a, i);
    IntsStep(a, i);
    if i < |a| {
      TouchingAt(a, i);
      CountedAndSkipped(a, i + 2);
      AfterSplits(a, i);
      IntervalSize(NewFrom(a, i), a[i + 1]);
    } else {
      NothingAfter(a);
    }
  }

  /** The integers from index i on begin with the number there. */
  predicate NoneBelow(a: seq<int>, i: nat)
    requires |a| % 2 == 0 && i % 2 == 0 && i <= |a|
  {
    forall v :: v in Ints(a[i..]) ==> i < |a| && v >= a[i]
  }

  lemma TouchingEven(a: seq<int>)
    requires Touching(a)
    ensures |a| % 2 == 0
  {
  }

  lemma TouchingAt(a: seq<int>, i: nat)
    requires Touching(a) && i % 2 == 0 && i < |a|
    ensures i + 1 < |a| && a[i] <= a[i + 1] && (i > 0 ==> a[i - 1] <= a[i]) && (i + 2 < |a| ==> a[i + 1] <= a[i + 2])
  {
  }

  lemma NothingAfter(a: seq<int>)
    requires |a| % 2 == 0
    ensures IntsAfter(a, |a|) == {}
  {
  }

  lemma AfterSplits(a: seq<int>, i: nat)
    requires Touching(a) && i % 2 == 0 && i < |a|
    requires NoneBelow(a, i + 2)
    ensures IntsAfter(a, i) == Interval(NewFrom(a, i), a[i + 1]) + IntsAfter(a, i + 2)
    ensures Interval(NewFrom(a, i), a[i + 1]) !! IntsAfter(a, i + 2)
  {
    hide Interval, Ints, Touching;
    TouchingEven(a);
    TouchingAt(a, i);
    IntsStep(a, i);
  }

  lemma IntsStep(a: seq<int>, i: nat)
    requires |a| % 2 == 0 && i % 2 == 0 && i <= |a|
    ensures i == |a| ==> Ints(a[i..]) == {}
    ensures i < |a| ==> Ints(a[i..]) == Interval(a[i], a[i + 1]) + Ints(a[i + 2..])
  {
    if i < |a| { assert a[i..][2..] == a[i + 2..]; }
  }

  /** The count is the number of integers exactly if every range that begins where the one before it
      ends is a single number. */
  lemma CountedExactIff(a: seq<int>)
    requires Touching(a)
    ensures Counted(a, 0) <= |Ints(a)|
    ensures Counted(a, 0) == |Ints(a)| <==>
            forall i | 0 <= i < |a| && Repeats(a, i) :: a[i + 1] == a[i]
  {
    assert a[0..] == a;
    CountedAndSkipped(a, 0);
    SkippedIff(a, 0);
  }

  lemma {:induction false} SkippedIff(a: seq<int>, i: nat)
    requires Touching(a) && i % 2 == 0 && i <= |a|
    ensures Skipped(a, i) == 0 <==> forall k | i <= k < |a| && Repeats(a, k) :: a[k + 1] == a[k]
    decreases |a| - i
  {
    if i < |a| {
      SkippedIff(a, i + 2);
      assert forall k | i <= k < |a| && Repeats(a, k) :: k == i || i + 2 <= k;
    }
  }

  lemma TotalSuffix(a: seq<int>, i: nat)
    requires i <= |a| && RangeKey(a[i..]) && i % 2 == 0 && |a| % 2 == 0
    ensures i < |a| ==> i + 1 < |a| && a[i] <= a[i + 1] && RangeKey(a[i + 2..]) && (i + 2 < |a| ==> a[i + 1] < a[i + 2])
    ensures i < |a| ==> Total(a[i..]) == a[i + 1] - a[i] + 1 + Total(a[i + 2..])
    ensures i < |a| ==> Ints(a[i..]) == Interval(a[i], a[i + 1]) + Ints(a[i + 2..])
    ensures i == |a| ==> Total(a[i..]) == 0 && Ints(a[i..]) == {}
    ensures Total(a[i..]) >= 0
  {
    TotalNonNegative(a[i..]);
    if i < |a| { assert a[i..][2..] == a[i + 2..]; }
  }

  lemma {:induction false} TotalNonNegative(a: seq<int>)
    requires RangeKey(a)
    ensures Total(a) >= |a| / 2
    decreases |a|
  {
    if |a| > 0 { TotalNonNegative(a[2..]); }
  }

  lemma {:induction false} IntervalSize(lo: int, hi: int)
    requires lo <= hi + 1
    ensures |Interval(lo, hi)| == hi - lo + 1
    decreases hi - lo
  {
    if lo <= hi { IntervalSize(lo, hi - 1); }
  }

  lemma {:induction false} IntsAbove(s: seq<int>, v: int)
    requires RangeKey(s) && v in Ints(s)
    ensures |s| > 0 && v >= s[0]
    decreases |s|
  {
    if v !in Interval(s[0], s[1]) { IntsAbove(s[2..], v); }
  }

  /** On disjoint ranges the total is the number of integers they contain. */
  lemma {:induction false} TotalIsSize(s: seq<int>)
    requires RangeKey(s)
    ensures Total(s) == |Ints(s)|
    decreases |s|
  {
    if |s| > 0 {
      TotalIsSize(s[2..]);
      IntervalSize(s[0], s[1]);
      assert Interval(s[0], s[1]) !! Ints(s[2..]) by {
        forall v | v in Interval(s[0], s[1]) && v in Ints(s[2..]) ensures false { IntsAbove(s[2..], v); }
      }
    }
  }

  lemma RangeKeyEven(a: seq<int>)
    requires RangeKey(a)
    ensures |a| % 2 == 0
  {
  }

  /** A key, the sparseness error, or no result because a loop does not end. */
  datatype Key = Key(elems: seq<int>) | TooSparse | Endless

  /** g_int_compress on an internal key. */
  method GIntCompress(key: seq<int>) returns (r: Key, ghost e: seq<nat>, ghost theta: int)
    requires Increasing(key) && Int32s(key)
    ensures |key| < 2 * MAXNUMRANGE ==> r == Key(key)
    ensures |key| >= 2 * MAXNUMRANGE ==>
              && |e| == MAXNUMRANGE && theta >= 1 && Cuts(e, 0, |key|) && Greedy(key, e, 0, theta)
              && r == if Total(Flat(key, e, 0)) > MAXNUMELTS then TooSparse else Key(Flat(key, e, 0))
  {
    hide Cuts, Flat, Greedy;
    e, theta := [], 1;
    var len := |key|;
    if len < 2 * MAXNUMRANGE { return Key(key), e, theta; }
    var dr := new int[2 * len](i => if 0 <= i < len then key[i] else 0);
    assert dr[..len] == key;
    len, e := MergeRuns(dr, len, key);
    len, e, theta := CloseGaps(dr, len, key, e);
    FlatIsRangeKey(key, e, 0);
    var lenr := InternalSize(dr[..len]);
    if lenr < 0 || lenr > MAXNUMELTS { return TooSparse, e, theta; }
    r := Key(dr[..len]);
  }

  /** An int incremented, with the wrap-around that the source is compiled for. */
  function Wrapped(j: int): int { if j == INT32_MAX then INT32_MIN else j + 1 }

  function Iterated(j: int, k: nat): int { if k == 0 then j else Wrapped(Iterated(j, k - 1)) }

  /** A loop that counts an int up while it is at most hi ends if and only if hi is not the greatest. */
  lemma CountingEndsIff(lo: int, hi: int)
    requires INT32_MIN <= lo <= hi <= INT32_MAX
    ensures (exists k: nat :: Iterated(lo, k) > hi) <==> hi < INT32_MAX
  {
    if hi < INT32_MAX {
      IteratedAdds(lo, hi + 1 - lo);
      assert Iterated(lo, hi + 1 - lo) > hi;
    }
    forall k: nat ensures Iterated(lo, k) <= INT32_MAX { IteratedIsInt(lo, k); }
  }

  lemma {:induction false} IteratedAdds(lo: int, k: nat)
    requires lo + k <= INT32_MAX
    ensures Iterated(lo, k) == lo + k
  {
    if k > 0 { IteratedAdds(lo, k - 1); }
  }

  lemma {:induction false} IteratedIsInt(lo: int, k: nat)
    requires INT32_MIN <= lo <= INT32_MAX
    ensures INT32_MIN <= Iterated(lo, k) <= INT32_MAX
  {
    if k > 0 { IteratedIsInt(lo, k - 1); }
  }

  lemma {:induction false} FlatLast(x: seq<int>, e: seq<nat>, from: nat)
    requires Cuts(e, from, |x|) && |e| > 0
    ensures Flat(x, e, from)[2 * |e| - 1] == x[|x| - 1]
    decreases |e|
  {
    if |e| > 1 { FlatLast(x, e[1..], e[0] + 1); }
  }

  /** The n integers from lo on. */
  function Run(lo: int, n: nat): (s: seq<int>)
    ensures |s| == n
  {
    seq(n, i => lo + i)
  }

  lemma {:induction false} RunTotal(lo: int, n: nat, e: seq<nat>, from: nat)
    requires Cuts(e, from, n)
    ensures Total(Flat(Run(lo, n), e, from)) == n - from
    decreases |e|
  {
    if |e| > 0 {
      RunTotal(lo, n, e[1..], e[0] + 1);
      assert Flat(Run(lo, n), e, from)[2..] == Flat(Run(lo, n), e[1..], e[0] + 1);
    }
  }

  /** Such keys come up: 200 integers up to INT_MAX, cut into any 100 blocks, pass the sparseness test
      and make ranges the last of which goes up to INT_MAX. */
  lemma TopOfRange(e: seq<nat>)
    requires Cuts(e, 0, 2 * MAXNUMRANGE) && |e| == MAXNUMRANGE
    ensures var x := Run(INT32_MAX - 199, 200); var c := Flat(x, e, 0);
            && Increasing(x) && Int32s(x) && |c| == 2 * MAXNUMRANGE && RangeKey(c) && Int32s(c)
            && Total(c) == 200 <= MAXNUMELTS && c[|c| - 1] == INT32_MAX
  {
    hide Flat, Cuts, Total, RangeKey;
    var x := Run(INT32_MAX - 199, 200);
    RunTotal(INT32_MAX - 199, 200, e, 0);
    FlatIsRangeKey(x, e, 0);
    FlatInt32(x, e, 0);
    FlatLast(x, e, 0);
  }

  /** g_int_decompress: a key of 200 or more numbers is taken for ranges and spelled out; there is no
      result if the last range goes up to INT_MAX. */
  method GIntDecompress(key: seq<int>) returns (r: Key)
    requires |key| >= 2 * MAXNUMRANGE ==> RangeKey(key) && Int32s(key)
    ensures |key| < 2 * MAXNUMRANGE ==> r == Key(key)
    ensures |key| >= 2 * MAXNUMRANGE ==>
              if Total(key) > MAXNUMELTS then r == TooSparse
              else if key[|key| - 1] == INT32_MAX then r == Endless
              else r.Key? && Increasing(r.elems) && |r.elems| == Total(key) && (set v | v in r.elems) == Ints(key)
  {
    hide Total, Ints, RangeKey, Interval;
    if |key| < 2 * MAXNUMRANGE { return Key(key); }
    RangeKeyEven(key);
    var lenr := InternalSize(key);
    if lenr < 0 || lenr > MAXNUMELTS { return TooSparse; }
    var dr: array<int> := new int[lenr](_ => 0);
    var n: nat := 0;
    var i := 0;
    assert key[0..] == key;
    assert dr[..0] == [];
    while i < |key|
      invariant 0 <= i <= |key| && i % 2 == 0 && RangeKey(key[i..])
      invariant n <= dr.Length && n + Total(key[i..]) == lenr == dr.Length
      invariant Increasing(dr[..n]) && (set v | v in dr[..n]) + Ints(key[i..]) == Ints(key)
      invariant 0 < i ==> 0 < n && dr[n - 1] == key[i - 1]
      invariant 0 < i < |key| ==> key[i - 1] < key[i]
      invariant 0 < i ==> key[i - 1] < INT32_MAX
    {
      TotalSuffix(key, i);
      TotalSuffix(key, i + 2);
      // by CountingEndsIff the loop over this range would not end
      if key[i + 1] == INT32_MAX { return Endless; }
      n := EmitRange(dr, n, i, key[i], key[i + 1]);
      i := i + 2;
    }
    TotalSuffix(key, i);
    r := Key(dr[..n]);
  }

  /** The inner loop: appends lo..hi to what has been emitted. */
  method EmitRange(dr: array<int>, n: nat, i: nat, lo: int, hi: int) returns (n': nat)
    requires lo <= hi < INT32_MAX && n + (hi - lo + 1) <= dr.Length
    requires Increasing(dr[..n]) && (n > 0 ==> dr[n - 1] < lo) && (i > 0 ==> n > 0)
    modifies dr
    ensures n' == n + (hi - lo + 1) && Increasing(dr[..n']) && dr[n' - 1] == hi
    ensures (set v | v in dr[..n']) == old(set v | v in dr[..n]) + Interval(lo, hi)
  {
    ghost var before := dr[..n];
    n' := n;
    var j := lo;
    while j <= hi
      invariant lo <= j <= hi + 1 && n' == n + (j - lo)
      invariant dr[..n] == before
      invariant forall k | n <= k < n' :: dr[k] == lo + (k - n)
    {
      if i == 0 || dr[n' - 1] != j {
        dr[n'] := j;
        n' := n' + 1;
      }
      j := j + 1;
    }
    EmitRangeDone(before, dr[..n'], lo, hi);
  }

  lemma EmitRangeDone(before: seq<int>, after: seq<int>, lo: int, hi: int)
    requires lo <= hi && |after| == |before| + (hi - lo + 1) && after[..|before|] == before
    requires Increasing(before) && (|before| > 0 ==> before[|before| - 1] < lo)
    requires forall k | |before| <= k < |after| :: after[k] == lo + (k - |before|)
    ensures Increasing(after)
    ensures (set v | v in after) == (set v | v in before) + Interval(lo, hi)
  {
    assert forall k | 0 <= k < |before| :: after[k] == before[k] <= before[|before| - 1];
    forall v | v in Interval(lo, hi) ensures v in after {
      assert after[|before| + (v - lo)] == v;
    }
    forall v | v in before ensures v in after {
      var k :| 0 <= k < |before| && before[k] == v;
      assert after[k] == v;
    }
  }
}