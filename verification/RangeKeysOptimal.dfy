/** Greedy gap closing is optimal: no cover of the key by as many ranges contains fewer integers. */
module RangeKeysOptimal {
  import opened Common
  import opened RangeKeys

  /** Some integer strictly between neighbours k and k+1 of the key is missing from `u`. */
  ghost predicate Broken(x: seq<int>, u: set<int>, k: nat)
    requires k + 1 < |x|
  {
    exists m :: x[k] < m < x[k + 1] && m !in u
  }

  /** The integers strictly inside the broken gaps, from neighbour `from` on: their number. */
  ghost function Saved(x: seq<int>, u: set<int>, from: nat): int
    decreases |x| - from
  {
    if from + 1 >= |x| then 0
    else (if Broken(x, u, from) then Gap(x, from) - 1 else 0) + Saved(x, u, from + 1)
  }

  /** The number of broken gaps. */
  ghost function Breaks(x: seq<int>, u: set<int>, from: nat): nat
    decreases |x| - from
  {
    if from + 1 >= |x| then 0 else (if Broken(x, u, from) then 1 else 0) + Breaks(x, u, from + 1)
  }

  /** What a set with these breaks contains at least. */
  ghost function Filled(x: seq<int>, u: set<int>, from: nat): set<int>
    requires from < |x|
    decreases |x| - from
  {
    if from + 1 == |x| then {x[from]}
    else (if Broken(x, u, from) then {x[from]} else Interval(x[from], x[from + 1] - 1)) + Filled(x, u, from + 1)
  }

  lemma {:induction false} FilledFacts(x: seq<int>, u: set<int>, from: nat)
    requires Increasing(x) && from < |x| && forall i | 0 <= i < |x| :: x[i] in u
    ensures Filled(x, u, from) <= u && forall v | v in Filled(x, u, from) :: v >= x[from]
    ensures |Filled(x, u, from)| == x[|x| - 1] - x[from] + 1 - Saved(x, u, from)
    decreases |x| - from
  {
    hide Filled, Saved, Broken, Interval;
    BreakStep(x, u, from);
    FilledStep(x, u, from);
    if from + 1 < |x| {
      FilledFacts(x, u, from + 1);
      var head := if Broken(x, u, from) then {x[from]} else Interval(x[from], x[from + 1] - 1);
      assert x[from] < x[from + 1];
      if !Broken(x, u, from) {
        IntervalSize(x[from], x[from + 1] - 1);
        Unbroken(x, u, from);
      }
      assert head !! Filled(x, u, from + 1);
    }
  }

  lemma FilledStep(x: seq<int>, u: set<int>, from: nat)
    requires from < |x|
    ensures from + 1 == |x| ==> Filled(x, u, from) == {x[from]}
    ensures from + 1 < |x| ==>
              Filled(x, u, from) ==
              (if Broken(x, u, from) then {x[from]} else Interval(x[from], x[from + 1] - 1)) + Filled(x, u, from + 1)
  {
  }

  lemma Unbroken(x: seq<int>, u: set<int>, k: nat)
    requires k + 1 < |x| && x[k] in u && !Broken(x, u, k)
    ensures Interval(x[k], x[k + 1] - 1) <= u
  {
  }

  /** The ranges of a cover that hold some element of the key from `from` on. */
  ghost function Users(x: seq<int>, cover: seq<int>, from: nat): set<nat>
    requires |cover| % 2 == 0
  {
    set t: nat | t < |cover| / 2 && Holder(x, cover, from, t)
  }

  ghost predicate Holder(x: seq<int>, cover: seq<int>, from: nat, t: nat)
    requires |cover| % 2 == 0 && t < |cover| / 2
  {
    exists i :: from <= i < |x| && cover[2 * t] <= x[i] <= cover[2 * t + 1]
  }

  lemma {:induction false} OwnerOf(cover: seq<int>, v: int) returns (t: nat)
    requires |cover| % 2 == 0 && v in Ints(cover)
    ensures t < |cover| / 2 && cover[2 * t] <= v <= cover[2 * t + 1]
    decreases |cover|
  {
    if v in Interval(cover[0], cover[1]) {
      t := 0;
    } else {
      var t' := OwnerOf(cover[2..], v);
      t := t' + 1;
      assert cover[2..][2 * t'] == cover[2 * t] && cover[2..][2 * t' + 1] == cover[2 * t + 1];
    }
  }

  lemma {:induction false} RangeInInts(cover: seq<int>, t: nat, v: int)
    requires |cover| % 2 == 0 && t < |cover| / 2 && cover[2 * t] <= v <= cover[2 * t + 1]
    ensures v in Ints(cover)
    decreases |cover|
  {
    if t > 0 {
      assert cover[2..][2 * (t - 1)] == cover[2 * t] && cover[2..][2 * (t - 1) + 1] == cover[2 * t + 1];
      RangeInInts(cover[2..], t - 1, v);
    }
  }

  /** A cover needs one range more than it leaves gaps broken: no range spans a broken gap. */
  lemma {:induction false} BreaksNeedRanges(x: seq<int>, cover: seq<int>, from: nat)
    requires |cover| % 2 == 0 && Increasing(x) && from < |x|
    requires forall i | 0 <= i < |x| :: x[i] in Ints(cover)
    ensures Breaks(x, Ints(cover), from) + 1 <= |Users(x, cover, from)|
    decreases |x| - from
  {
    var u := Ints(cover);
    var t := OwnerOf(cover, x[from]);
    assert Holder(x, cover, from, t);
    if from + 1 == |x| {
      assert {t} <= Users(x, cover, from);
      SubsetSize({t}, Users(x, cover, from));
    } else {
      BreaksNeedRanges(x, cover, from + 1);
      var later := Users(x, cover, from + 1);
      forall s | s in later ensures s in Users(x, cover, from) {
        var i :| from + 1 <= i < |x| && cover[2 * s] <= x[i] <= cover[2 * s + 1];
      }
      if Broken(x, u, from) {
        var m :| x[from] < m < x[from + 1] && m !in u;
        if t in later {
          var i :| from + 1 <= i < |x| && cover[2 * t] <= x[i] <= cover[2 * t + 1];
          assert x[from + 1] <= x[i];
          RangeInInts(cover, t, m);
        }
        SubsetSize(later + {t}, Users(x, cover, from));
      } else {
        SubsetSize(later, Users(x, cover, from));
      }
    }
  }

  /** Against any set with its own breaks, the greedy blocks lose at most theta - 1 per extra break. */
  lemma {:induction false} Compare(x: seq<int>, e: seq<nat>, from: nat, theta: int, u: set<int>)
    requires Increasing(x) && from < |x| && Cuts(e, from, |x|) && |e| > 0 && Greedy(x, e, from, theta) && theta >= 1
    ensures Total(Flat(x, e, from)) + Saved(x, u, from)
            <= x[|x| - 1] - x[from] + 1 + (theta - 1) * (Breaks(x, u, from) - (|e| - 1))
    decreases |x| - from
  {
    hide Cuts, Flat, Greedy, Total, Saved, Breaks, Broken;
    var last := |x| - 1;
    BreakStep(x, u, from);
    Step(x, e, from, theta);
    var rest := Flat(x, e[1..], e[0] + 1);
    TotalStep(x[from], x[e[0]], rest);
    var th := theta - 1;
    if from < e[0] {
      Step(x, e, from + 1, theta);
      TotalStep(x[from + 1], x[e[0]], rest);
      Compare(x, e, from + 1, theta, u);
      var c' := Breaks(x, u, from + 1) - (|e| - 1);
      Distribute(th, c', 1);
      assert Gap(x, from) <= theta;
    } else if |e| > 1 {
      Step(x, e[1..], e[0] + 1, theta);
      Compare(x, e[1..], from + 1, theta, u);
      var c' := Breaks(x, u, from + 1) - (|e| - 2);
      Distribute(th, c', -1);
      assert Gap(x, from) >= theta;
    } else {
      LastBlock(x, e, from);
    }
  }

  lemma Distribute(a: int, b: int, c: int)
    ensures a * (b + c) == a * b + a * c
  {
  }

  lemma BreakStep(x: seq<int>, u: set<int>, from: nat)
    requires from < |x|
    ensures from + 1 == |x| ==> Saved(x, u, from) == 0 && Breaks(x, u, from) == 0
    ensures from + 1 < |x| ==>
              Saved(x, u, from) == (if Broken(x, u, from) then Gap(x, from) - 1 else 0) + Saved(x, u, from + 1) &&
              Breaks(x, u, from) == (if Broken(x, u, from) then 1 else 0) + Breaks(x, u, from + 1)
  {
  }

  lemma TotalStep(lo: int, hi: int, rest: seq<int>)
    requires |rest| % 2 == 0
    ensures Total([lo, hi] + rest) == hi - lo + 1 + Total(rest)
  {
    assert ([lo, hi] + rest)[2..] == rest;
  }

  lemma LastBlock(x: seq<int>, e: seq<nat>, from: nat)
    requires |e| == 1 && Cuts(e, from, |x|)
    ensures e[0] == |x| - 1 && Total(Flat(x, e[1..], e[0] + 1)) == 0
  {
  }

  /** Main result: the ranges that gap closing leaves contain no more integers than any cover of
      the key by at most as many ranges, whatever their order or overlap. */
  lemma NoSmallerCover(x: seq<int>, e: seq<nat>, theta: int, cover: seq<int>)
    requires Increasing(x) && |x| > 0 && Cuts(e, 0, |x|) && Greedy(x, e, 0, theta) && theta >= 1
    requires |cover| % 2 == 0 && |cover| <= 2 * |e|
    requires forall i | 0 <= i < |x| :: x[i] in Ints(cover)
    ensures |Ints(Flat(x, e, 0))| <= |Ints(cover)|
  {
    hide *;
    var u := Ints(cover);
    FilledFacts(x, u, 0);
    SubsetSize(Filled(x, u, 0), u);
    BreaksNeedRanges(x, cover, 0);
    UsersBelow(x, cover);
    SizeBelow(|cover| / 2, Users(x, cover, 0));
    SomeBlock(x, e);
    Compare(x, e, 0, theta, u);
    NotPositive(theta - 1, Breaks(x, u, 0) - (|e| - 1));
    FlatIsRangeKey(x, e, 0);
    TotalIsSize(Flat(x, e, 0));
  }

  lemma UsersBelow(x: seq<int>, cover: seq<int>)
    requires |cover| % 2 == 0
    ensures forall t | t in Users(x, cover, 0) :: t < |cover| / 2
  {
  }

  lemma SomeBlock(x: seq<int>, e: seq<nat>)
    requires |x| > 0 && Cuts(e, 0, |x|)
    ensures |e| > 0
  {
  }

  lemma NotPositive(a: int, b: int)
    requires a >= 0 && b <= 0
    ensures a * b <= 0
  {
  }

  /** The ranges themselves are a cover, so the bound is attained. */
  lemma {:induction false} RangesCover(x: seq<int>, e: seq<nat>, from: nat, i: nat)
    requires Increasing(x) && Cuts(e, from, |x|) && from <= i < |x|
    ensures x[i] in Ints(Flat(x, e, from))
    decreases |e|
  {
    Step(x, e, from, 0);
    assert Flat(x, e, from)[2..] == Flat(x, e[1..], e[0] + 1);
    if i > e[0] { RangesCover(x, e[1..], e[0] + 1, i); }
    else { assert x[from] <= x[i] <= x[e[0]]; }
  }
}