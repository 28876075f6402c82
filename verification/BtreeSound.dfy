/** What amcheck's acceptance says about the whole tree. */
module BtreeSound {
  import opened BtreeKeys
  import opened BtreeCheck
  import opened Common

  /** Offset of the first real item: on internal pages the one after minus infinity. */
  function FirstReal(p: Page): nat { if p.leaf then FirstDataKey(p) else FirstDataKey(p) + 1 }

  function RealCount(p: Page): nat { if MaxOffset(p) < FirstReal(p) then 0 else MaxOffset(p) - FirstReal(p) + 1 }

  /** The keys of the real items of a page, in order. */
  function RealKeys(n: nat, p: Page): (ks: seq<Key>)
    ensures |ks| == RealCount(p)
  {
    seq(RealCount(p), i requires 0 <= i < RealCount(p) => ScanKey(n, ItemAt(p, FirstReal(p) + i)))
  }

  predicate Increasing(ks: seq<Key>) { forall i, j | 0 <= i < j < |ks| :: Less(ks[i], ks[j]) }

  lemma {:induction false} AdjacentIncreasing(ks: seq<Key>)
    requires forall i | 0 <= i < |ks| - 1 :: Less(ks[i], ks[i + 1])
    ensures Increasing(ks)
    decreases |ks|
  {
    hide Less;
    if |ks| > 0 {
      var t := ks[..|ks| - 1];
      AdjacentIncreasing(t);
      forall i | 0 <= i < |t| ensures Less(ks[i], ks[|ks| - 1]) {
        if i < |t| - 1 {
          assert Less(t[i], t[|t| - 1]);
          LessTrans(ks[i], ks[|t| - 1], ks[|ks| - 1]);
        }
      }
      assert forall i | 0 <= i < |t| :: t[i] == ks[i];
    }
  }

  lemma IncreasingJoin(a: seq<Key>, b: seq<Key>)
    requires Increasing(a) && Increasing(b) && |a| > 0 && |b| > 0 && Less(a[|a| - 1], b[0])
    ensures Increasing(a + b)
  {
    hide Less;
    var c := a + b;
    forall i, j | 0 <= i < j < |c| ensures Less(c[i], c[j]) {
      if i < |a| <= j {
        if i < |a| - 1 { LessTrans(a[i], a[|a| - 1], b[0]); }
        if j > |a| { LessTrans(a[i], b[0], b[j - |a|]); }
      }
    }
  }

  // ----- one page -----

  lemma CheckedKey(n: nat, p: Page, off: nat)
    requires 1 <= off <= MaxOffset(p) && CheckNatts(n, p, off) && !IsNegativeInfinity(p, off)
    ensures WellFormedKey(n, ScanKey(n, ItemAt(p, off)))
  {
  }

  lemma ItemFacts(idx: Index, p: Page, off: nat)
    requires PageOk(idx, p) && FirstReal(p) <= off <= MaxOffset(p)
    ensures ItemOk(idx, p, off) && !IsNegativeInfinity(p, off)
            && WellFormedKey(idx.nkeyatts, ScanKey(idx.nkeyatts, ItemAt(p, off)))
  {
    hide UpperBoundOk, NextOk, DownlinkOk, CheckNatts;
    assert ItemOk(idx, p, off);
    CheckedKey(idx.nkeyatts, p, off);
  }

  /** The items of a page are in order. */
  lemma PageIncreasing(idx: Index, p: Page)
    requires PageOk(idx, p)
    ensures Increasing(RealKeys(idx.nkeyatts, p))
  {
    hide PageOk, InvariantL, Less, DownlinkOk, UpperBoundOk, CheckNatts;
    var n := idx.nkeyatts;
    var ks := RealKeys(n, p);
    forall i | 0 <= i < |ks| - 1 ensures Less(ks[i], ks[i + 1]) {
      var off := FirstReal(p) + i;
      ItemFacts(idx, p, off);
      ItemFacts(idx, p, off + 1);
      TestsMean(n, ks[i], p, off + 1);
    }
    AdjacentIncreasing(ks);
  }

  predicate BelowHighKey(leaf: bool, k: Key, h: Key) { if leaf then AtMost(k, h) else Less(k, h) }

  /** No real item is above the high key; on internal pages none is equal to it. */
  predicate BoundedAbove(n: nat, p: Page) {
    !Rightmost(p) ==>
      P_HIKEY <= MaxOffset(p) && forall k | k in RealKeys(n, p) ::
        BelowHighKey(p.leaf, k, ScanKey(n, ItemAt(p, P_HIKEY)))
  }

  lemma PageBounded(idx: Index, p: Page)
    requires PageOk(idx, p)
    ensures BoundedAbove(idx.nkeyatts, p)
  {
    hide InvariantL, InvariantLeq, Less, AtMost, DownlinkOk, NextOk, CheckNatts;
    var n := idx.nkeyatts;
    if !Rightmost(p) {
      forall k | k in RealKeys(n, p)
        ensures BelowHighKey(p.leaf, k, ScanKey(n, ItemAt(p, P_HIKEY)))
      {
        var i :| 0 <= i < RealCount(p) && RealKeys(n, p)[i] == k;
        ItemFacts(idx, p, FirstReal(p) + i);
        TestsMean(n, k, p, P_HIKEY);
      }
    }
  }

  /** Every real downlink leads to a readable page whose real items are all above the downlink's key. */
  predicate ChildrenAbove(idx: Index, p: Page) {
    !p.leaf ==> forall off | FirstReal(p) <= off <= MaxOffset(p) ::
      var it := ItemAt(p, off);
      it.down < |idx.pages| && AllAbove(ScanKey(idx.nkeyatts, it), RealKeys(idx.nkeyatts, idx.pages[it.down]))
  }

  predicate AllAbove(k: Key, ks: seq<Key>) { forall c | c in ks :: Less(k, c) }

  lemma PageChildren(idx: Index, p: Page)
    requires PageOk(idx, p)
    ensures ChildrenAbove(idx, p)
  {
    hide PageOk, UpperBoundOk, NextOk, CheckNatts, DownlinkOk;
    if !p.leaf {
      forall off | FirstReal(p) <= off <= MaxOffset(p)
        ensures var it := ItemAt(p, off);
                it.down < |idx.pages| && AllAbove(ScanKey(idx.nkeyatts, it), RealKeys(idx.nkeyatts, idx.pages[it.down]))
      {
        ItemFacts(idx, p, off);
        ChildAbove(idx, ScanKey(idx.nkeyatts, ItemAt(p, off)), ItemAt(p, off).down);
      }
    }
  }

  lemma ChildAbove(idx: Index, k: Key, blk: nat)
    requires DownlinkOk(idx, k, blk) && WellFormedKey(idx.nkeyatts, k)
    ensures blk < |idx.pages| && AllAbove(k, RealKeys(idx.nkeyatts, idx.pages[blk]))
  {
    hide InvariantL, Less;
    var c := ReadPage(idx, blk).value;
    forall x | x in RealKeys(idx.nkeyatts, c) ensures Less(k, x) {
      var i :| 0 <= i < RealCount(c) && RealKeys(idx.nkeyatts, c)[i] == x;
      assert BelowChildItem(idx.nkeyatts, k, c, FirstReal(c) + i);
      TestsMean(idx.nkeyatts, k, c, FirstReal(c) + i);
    }
  }

  /** The last item of a page is below the first of its right sibling. */
  lemma AcrossPages(idx: Index, p: Page, q: Page)
    requires PageOk(idx, p) && PageOk(idx, q) && !Rightmost(p) && ReadPage(idx, p.next) == Ok(q)
    requires RealCount(p) > 0 && RealCount(q) > 0
    ensures var a, b := RealKeys(idx.nkeyatts, p), RealKeys(idx.nkeyatts, q); Less(a[|a| - 1], b[0])
  {
    hide PageOk, ReadPage, InvariantL, InvariantG, Less, DownlinkOk, UpperBoundOk, CheckNatts;
    var n := idx.nkeyatts;
    ItemFacts(idx, p, MaxOffset(p));
    ItemFacts(idx, q, FirstReal(q));
    TestsMean(n, RealKeys(n, q)[0], p, MaxOffset(p));
  }

  // ----- one level -----

  predicate InFile(idx: Index, chain: seq<nat>) { forall i | 0 <= i < |chain| :: 0 < chain[i] < |idx.pages| }

  function PageOf(idx: Index, chain: seq<nat>, i: nat): Page
    requires InFile(idx, chain) && i < |chain|
  {
    idx.pages[chain[i]]
  }

  /** The keys of all real items along the blocks, in order. */
  function LevelKeys(idx: Index, chain: seq<nat>): seq<Key>
    requires InFile(idx, chain)
  {
    if |chain| == 0 then [] else
    LevelKeys(idx, chain[..|chain| - 1]) + RealKeys(idx.nkeyatts, PageOf(idx, chain, |chain| - 1))
  }

  predicate Distinct(chain: seq<nat>) { forall i, j | 0 <= i < j < |chain| :: chain[i] != chain[j] }

  function RightOf(chain: seq<nat>, i: nat): nat
    requires i < |chain|
  {
    if i == |chain| - 1 then P_NONE else chain[i + 1]
  }

  /** Right links lead along the chain to its end, left links back. */
  predicate Linked(idx: Index, chain: seq<nat>)
    requires InFile(idx, chain)
  {
    forall i | 0 <= i < |chain| ::
      PageOf(idx, chain, i).prev == LeftOf(chain, i) && PageOf(idx, chain, i).next == RightOf(chain, i)
  }

  lemma VisitedPage(idx: Index, level: Level, chain: seq<nat>, i: nat)
    requires ChainOk(idx, level, chain) && i < |chain|
    ensures 0 < chain[i] < |idx.pages| && ReadPage(idx, chain[i]) == Ok(idx.pages[chain[i]])
    ensures var p := idx.pages[chain[i]];
            PageOk(idx, p) && p.level == level.level && p.prev == LeftOf(chain, i) && p.next == RightOf(chain, i)
  {
    hide PageOk;
    ChainVisits(idx, level, chain, i);
    VisitedIsLive(idx, level, chain[i], LeftOf(chain, i));
  }

  lemma ChainInFile(idx: Index, level: Level, chain: seq<nat>)
    requires ChainOk(idx, level, chain)
    ensures InFile(idx, chain)
  {
    hide ChainOk;
    forall i | 0 <= i < |chain| ensures 0 < chain[i] < |idx.pages| { VisitedPage(idx, level, chain, i); }
  }

  /** Every page of the chain has a real item; the cross-page check passes over those that have none. */
  predicate NoEmptyPage(idx: Index, chain: seq<nat>)
    requires InFile(idx, chain)
  {
    forall i | 0 <= i < |chain| :: RealCount(PageOf(idx, chain, i)) > 0
  }

  lemma LevelKeysStep(idx: Index, chain: seq<nat>, n: nat)
    requires InFile(idx, chain) && n < |chain|
    ensures LevelKeys(idx, chain[..n + 1]) == LevelKeys(idx, chain[..n]) + RealKeys(idx.nkeyatts, PageOf(idx, chain, n))
    ensures n == 0 ==> LevelKeys(idx, chain[..n + 1]) == RealKeys(idx.nkeyatts, PageOf(idx, chain, n))
  {
    hide RealKeys;
    assert chain[..n + 1][..n] == chain[..n];
    if n == 0 { assert LevelKeys(idx, chain[..0]) == []; }
  }

  function FirstKey(idx: Index, p: Page): Key
    requires RealCount(p) > 0
  {
    RealKeys(idx.nkeyatts, p)[0]
  }

  function LastKey(idx: Index, p: Page): Key
    requires RealCount(p) > 0
  {
    RealKeys(idx.nkeyatts, p)[RealCount(p) - 1]
  }

  /** Page j is the next one after page i to have a real item, and page i has one. */
  predicate Follows(idx: Index, chain: seq<nat>, i: nat, j: nat)
    requires InFile(idx, chain) && i < j < |chain|
  {
    && RealCount(PageOf(idx, chain, i)) > 0 && RealCount(PageOf(idx, chain, j)) > 0
    && forall k | i < k < j :: RealCount(PageOf(idx, chain, k)) == 0
  }

  /** Among the first n pages, one with real items ends below the first key of the next that has some. */
  predicate JoinsInOrder(idx: Index, chain: seq<nat>, n: nat)
    requires InFile(idx, chain) && n <= |chain|
  {
    forall i, j | 0 <= i < j < n && Follows(idx, chain, i, j) ::
      Less(LastKey(idx, PageOf(idx, chain, i)), FirstKey(idx, PageOf(idx, chain, j)))
  }

  /** The last of the first n pages that has a real item, or n. */
  function LastFilled(idx: Index, chain: seq<nat>, n: nat): (i: nat)
    requires InFile(idx, chain) && n <= |chain|
    ensures i == n || (i < n && RealCount(PageOf(idx, chain, i)) > 0)
    ensures forall k | 0 <= k < n && (i == n || i < k) :: RealCount(PageOf(idx, chain, k)) == 0
  {
    if n == 0 then 0
    else if RealCount(PageOf(idx, chain, n - 1)) > 0 then n - 1
    else var i := LastFilled(idx, chain, n - 1); if i == n - 1 then n else i
  }

  /** What the first n pages of a level contribute: nothing, or keys that end with those of the last
      page that has some. */
  predicate EndsWithFilled(idx: Index, chain: seq<nat>, n: nat)
    requires InFile(idx, chain) && n <= |chain|
  {
    var ks, i := LevelKeys(idx, chain[..n]), LastFilled(idx, chain, n);
    if i == n then ks == [] else |ks| > 0 && ks[|ks| - 1] == LastKey(idx, PageOf(idx, chain, i))
  }

  lemma JoinsStep(idx: Index, chain: seq<nat>, n: nat)
    requires InFile(idx, chain) && n < |chain|
    ensures var i, p := LastFilled(idx, chain, n), PageOf(idx, chain, n);
            JoinsInOrder(idx, chain, n + 1) <==>
            JoinsInOrder(idx, chain, n)
            && (i < n && RealCount(p) > 0 ==> Less(LastKey(idx, PageOf(idx, chain, i)), FirstKey(idx, p)))
  {
    hide Less, RealCount, LastKey, FirstKey, LastFilled;
    var i := LastFilled(idx, chain, n);
    forall k | 0 <= k < n && Follows(idx, chain, k, n) ensures k == i { }
    if i < n && RealCount(PageOf(idx, chain, n)) > 0 { assert Follows(idx, chain, i, n); }
  }

  lemma IncreasingJoinIff(a: seq<Key>, b: seq<Key>)
    requires Increasing(b)
    ensures Increasing(a + b) <==> Increasing(a) && (|a| > 0 && |b| > 0 ==> Less(a[|a| - 1], b[0]))
  {
    hide Less;
    if |b| == 0 {
      assert a + b == a;
    } else if |a| == 0 {
      assert a + b == b;
    } else {
      if Increasing(a) && Less(a[|a| - 1], b[0]) { IncreasingJoin(a, b); }
      if Increasing(a + b) {
        assert Less((a + b)[|a| - 1], (a + b)[|a|]);
        assert forall i | 0 <= i < |a| :: (a + b)[i] == a[i];
      }
    }
  }

  /** A level is in order exactly if its filled pages join in order. */
  lemma {:induction false} KeysIncreaseIff(idx: Index, level: Level, chain: seq<nat>, n: nat)
    requires ChainOk(idx, level, chain) && n <= |chain| && InFile(idx, chain)
    ensures EndsWithFilled(idx, chain, n)
    ensures Increasing(LevelKeys(idx, chain[..n])) <==> JoinsInOrder(idx, chain, n)
    decreases n
  {
    hide ChainOk, PageOk, Less, Increasing, LevelKeys, JoinsInOrder, RealKeys, RealCount;
    if n == 0 {
      NoKeys(idx, chain);
    } else {
      var p := PageOf(idx, chain, n - 1);
      KeysIncreaseIff(idx, level, chain, n - 1);
      VisitedPage(idx, level, chain, n - 1);
      PageIncreasing(idx, p);
      LevelKeysStep(idx, chain, n - 1);
      JoinsStep(idx, chain, n - 1);
      IncreasingJoinIff(LevelKeys(idx, chain[..n - 1]), RealKeys(idx.nkeyatts, p));
    }
  }

  lemma NoKeys(idx: Index, chain: seq<nat>)
    requires InFile(idx, chain)
    ensures LevelKeys(idx, chain[..0]) == [] && Increasing(LevelKeys(idx, chain[..0])) && JoinsInOrder(idx, chain, 0)
  {
  }

  /** Between neighbours the check itself sees to it. */
  lemma NeighboursJoin(idx: Index, level: Level, chain: seq<nat>)
    requires ChainOk(idx, level, chain) && InFile(idx, chain) && NoEmptyPage(idx, chain)
    ensures JoinsInOrder(idx, chain, |chain|)
  {
    hide ChainOk, Less, LastKey, FirstKey, RealCount;
    forall i, j | 0 <= i < j < |chain| && Follows(idx, chain, i, j)
      ensures Less(LastKey(idx, PageOf(idx, chain, i)), FirstKey(idx, PageOf(idx, chain, j)))
    {
      NextIsNeighbour(idx, chain, i, j);
      NeighbourJoins(idx, level, chain, i);
    }
  }

  lemma NextIsNeighbour(idx: Index, chain: seq<nat>, i: nat, j: nat)
    requires InFile(idx, chain) && NoEmptyPage(idx, chain) && i < j < |chain| && Follows(idx, chain, i, j)
    ensures j == i + 1
  {
    hide RealCount, PageOf;
    assert i + 1 <= j && RealCount(PageOf(idx, chain, i + 1)) > 0;
  }

  lemma NeighbourJoins(idx: Index, level: Level, chain: seq<nat>, i: nat)
    requires ChainOk(idx, level, chain) && InFile(idx, chain) && i + 1 < |chain|
    requires RealCount(PageOf(idx, chain, i)) > 0 && RealCount(PageOf(idx, chain, i + 1)) > 0
    ensures Less(LastKey(idx, PageOf(idx, chain, i)), FirstKey(idx, PageOf(idx, chain, i + 1)))
  {
    hide ChainOk, PageOk, Less, RealKeys, RealCount, ReadPage;
    VisitedPage(idx, level, chain, i);
    VisitedPage(idx, level, chain, i + 1);
    AcrossPages(idx, PageOf(idx, chain, i), PageOf(idx, chain, i + 1));
  }

  /** A page of a level, by itself and with the pages its downlinks lead to. */
  predicate SoundPage(idx: Index, level: nat, p: Page) {
    && p.level == level && (p.leaf <==> level == 0)
    && BoundedAbove(idx.nkeyatts, p) && ChildrenAbove(idx, p) && Increasing(RealKeys(idx.nkeyatts, p))
  }

  /** A level as it should be, but that its order is known only if its filled pages join in order, as they
      do when none is empty. */
  predicate SoundLevel(idx: Index, level: nat, chain: seq<nat>) {
    && Distinct(chain) && InFile(idx, chain) && Linked(idx, chain)
    && (forall i | 0 <= i < |chain| :: SoundPage(idx, level, PageOf(idx, chain, i)))
    && (Increasing(LevelKeys(idx, chain)) <==> JoinsInOrder(idx, chain, |chain|))
    && (NoEmptyPage(idx, chain) ==> Increasing(LevelKeys(idx, chain)))
  }

  /** An accepted level is acyclic with left links inverse to right links, at the expected level, within
      its high keys, with children above its downlinks and every page in order; the level is in order
      throughout if and only if each filled page ends below the start of the next filled one. */
  lemma LevelIsSound(idx: Index, level: Level, chain: seq<nat>)
    requires ChainOk(idx, level, chain)
    ensures SoundLevel(idx, level.level, chain)
  {
    hide ChainOk, PageOk, LevelKeys, Increasing, BoundedAbove, ChildrenAbove, ReadPage, NoEmptyPage, JoinsInOrder;
    ChainInFile(idx, level, chain);
    ChainDistinct(idx, level, chain);
    forall i | 0 <= i < |chain|
      ensures PageOf(idx, chain, i).prev == LeftOf(chain, i) && PageOf(idx, chain, i).next == RightOf(chain, i)
      ensures SoundPage(idx, level.level, PageOf(idx, chain, i))
    {
      VisitedPage(idx, level, chain, i);
      ReadLevel(idx, chain[i]);
      PageBounded(idx, PageOf(idx, chain, i));
      PageChildren(idx, PageOf(idx, chain, i));
      PageIncreasing(idx, PageOf(idx, chain, i));
    }
    assert chain[..|chain|] == chain;
    KeysIncreaseIff(idx, level, chain, |chain|);
    if NoEmptyPage(idx, chain) { NeighboursJoin(idx, level, chain); }
  }

  lemma ReadLevel(idx: Index, blk: nat)
    requires 0 < blk < |idx.pages| && ReadPage(idx, blk).Ok?
    ensures var p := idx.pages[blk];
            (p.leaf <==> p.level == 0) && (!p.leaf ==> FirstDataKey(p) <= MaxOffset(p))
  {
  }

  lemma ChainDistinct(idx: Index, level: Level, chain: seq<nat>)
    requires ChainOk(idx, level, chain)
    ensures Distinct(chain)
  {
    hide VisitOk;
    forall i, j | 0 <= i < j < |chain| ensures chain[i] != chain[j] { NoRevisit(idx, level, chain, i, j); }
  }

  // ----- the whole tree -----

  lemma {:induction false} LevelNumbers(idx: Index, level: Level, levels: seq<seq<nat>>, i: nat)
    requires LevelsOk(idx, level, levels) && i < |levels|
    ensures i <= level.level && SoundLevel(idx, level.level - i, levels[i]) && StepsDown(idx, levels, i)
    decreases |levels|
  {
    hide SoundLevel, ChainOk;
    LevelIsSound(idx, level, levels[0]);
    ChainBegins(idx, level, levels[0]);
    VisitedPage(idx, level, levels[0], 0);
    var next := NextDown(idx.pages[level.leftmost]);
    if i > 0 {
      LevelNumbers(idx, next, levels[1..], i - 1);
      assert levels[1..][i - 1] == levels[i];
      if i + 1 < |levels| { assert levels[1..][i] == levels[i + 1]; }
    } else if |levels| > 1 {
      ChainBegins(idx, next, levels[1]);
    }
  }

  lemma ChainBegins(idx: Index, level: Level, chain: seq<nat>)
    requires ChainOk(idx, level, chain)
    ensures |chain| > 0 && chain[0] == level.leftmost
  {
  }

  /** Level i is followed by the one at the first downlink of its leftmost page, or is the last: of
      leaves, or with a first downlink to block 0, which ends the walk as well. */
  predicate StepsDown(idx: Index, levels: seq<seq<nat>>, i: nat)
    requires i < |levels|
  {
    && |levels[i]| > 0 && levels[i][0] < |idx.pages|
    && var next := NextDown(idx.pages[levels[i][0]]).leftmost;
       if i + 1 < |levels| then |levels[i + 1]| > 0 && levels[i + 1][0] == next != P_NONE else next == P_NONE
  }

  /** An index in which amcheck finds no error: level by level from the root down, numbered from the
      root's level, each level is sound and leads to the next. */
  lemma AcceptedTreeIsSound(idx: Index, levels: seq<seq<nat>>, i: nat)
    requires LevelsOk(idx, RootLevel(idx), levels) && i < |levels|
    ensures i <= idx.rootLevel && SoundLevel(idx, idx.rootLevel - i, levels[i]) && StepsDown(idx, levels, i)
  {
    hide SoundLevel, LevelsOk, StepsDown;
    LevelNumbers(idx, RootLevel(idx), levels, i);
  }

  // ----- whether the walk reaches the leaves -----

  /** An internal page whose first downlink is to block 0: where the walk takes the level below for none. */
  predicate StopsEarly(p: Page) {
    !p.leaf && FirstDataKey(p) <= MaxOffset(p) && ItemAt(p, FirstDataKey(p)).down == P_NONE
  }

  predicate Leaves(idx: Index, chain: seq<nat>)
    requires InFile(idx, chain)
  {
    forall i | 0 <= i < |chain| :: PageOf(idx, chain, i).leaf
  }

  /** First downlinks lead from a block at this level to a leaf without passing block 0. */
  predicate SpineReachesLeaf(idx: Index, blk: nat, level: nat)
    decreases level
  {
    && 0 < blk < |idx.pages|
    && (level > 0 ==> FirstDataKey(idx.pages[blk]) <= MaxOffset(idx.pages[blk])
                      && SpineReachesLeaf(idx, ItemAt(idx.pages[blk], FirstDataKey(idx.pages[blk])).down, level - 1))
  }

  lemma {:induction false} SpineIff(idx: Index, level: Level, levels: seq<seq<nat>>)
    requires LevelsOk(idx, level, levels) && level.leftmost != P_NONE
    ensures |levels| == level.level + 1 <==> SpineReachesLeaf(idx, level.leftmost, level.level)
    decreases |levels|
  {
    hide ChainOk;
    ChainBegins(idx, level, levels[0]);
    VisitedPage(idx, level, levels[0], 0);
    ReadLevel(idx, level.leftmost);
    var next := NextDown(idx.pages[level.leftmost]);
    if level.level > 0 && next.leftmost != P_NONE { SpineIff(idx, next, levels[1..]); }
  }

  /** The levels of an accepted index that is not empty go down to the leaves if and only if no first
      downlink on the left edge is to block 0, that is unless the last level checked stops early. */
  lemma ReachesLeavesIff(idx: Index, levels: seq<seq<nat>>)
    requires LevelsOk(idx, RootLevel(idx), levels) && idx.root != P_NONE
    ensures |levels| > 0 && var last := levels[|levels| - 1];
            && InFile(idx, last) && |last| > 0
            && (Leaves(idx, last) <==> |levels| == idx.rootLevel + 1)
            && (Leaves(idx, last) <==> SpineReachesLeaf(idx, idx.root, idx.rootLevel))
            && (Leaves(idx, last) <==> !StopsEarly(idx.pages[last[0]]))
  {
    hide ChainOk, SpineReachesLeaf, BoundedAbove, ChildrenAbove, LevelKeys, Increasing, JoinsInOrder, NoEmptyPage;
    SpineIff(idx, RootLevel(idx), levels);
    AcceptedTreeIsSound(idx, levels, |levels| - 1);
    var last := levels[|levels| - 1];
    assert SoundPage(idx, idx.rootLevel - (|levels| - 1), PageOf(idx, last, 0));
    LevelHeadRead(idx, RootLevel(idx), levels, |levels| - 1);
  }

  lemma {:induction false} LevelHeadRead(idx: Index, level: Level, levels: seq<seq<nat>>, i: nat)
    requires LevelsOk(idx, level, levels) && i < |levels|
    ensures |levels[i]| > 0 && 0 < levels[i][0] < |idx.pages| && ReadPage(idx, levels[i][0]).Ok?
    ensures var p := idx.pages[levels[i][0]]; !p.leaf ==> p.level > 0 && FirstDataKey(p) <= MaxOffset(p)
    decreases |levels|
  {
    hide ChainOk, ReadPage, PageOk;
    ChainBegins(idx, level, levels[0]);
    VisitedPage(idx, level, levels[0], 0);
    if i > 0 {
      LevelHeadRead(idx, NextDown(idx.pages[level.leftmost]), levels[1..], i - 1);
      assert levels[1..][i - 1] == levels[i];
    } else {
      ReadLevel(idx, levels[0][0]);
    }
  }

  const METAPAGE := Page(true, false, false, false, 0, 0, 0, [])
  const TO_NONE := Item(true, [], 0, false, 0)
  const LONE_ROOT := Page(false, false, true, false, 0, 0, 1, [TO_NONE])
  const LEAFLESS := Index(1, 1, 1, [METAPAGE, LONE_ROOT])

  /** An index without any leaf passes: a root at level 1 whose only item points to block 0. */
  lemma LeaflessPasses()
    ensures LevelsOk(LEAFLESS, RootLevel(LEAFLESS), [[1]]) && Passes(LEAFLESS, RootLevel(LEAFLESS))
    ensures InFile(LEAFLESS, [1]) && !Leaves(LEAFLESS, [1]) && forall p | p in LEAFLESS.pages :: !p.leaf
  {
    var level, chain: seq<nat> := RootLevel(LEAFLESS), [1];
    assert CheckNatts(1, LONE_ROOT, 1) && ItemOk(LEAFLESS, LONE_ROOT, 1);
    assert PageOk(LEAFLESS, LONE_ROOT);
    assert VisitOk(LEAFLESS, level, 1, LeftOf(chain, 0));
    hide VisitOk;
    assert ChainOk(LEAFLESS, level, chain);
    assert [chain][1..] == [];
    assert LevelsOk(LEAFLESS, NextDown(LONE_ROOT), []);
    assert !PageOf(LEAFLESS, chain, 0).leaf;
  }

  // ----- the assumption on empty pages -----

  const FIVE := Item(false, [5], 0, true, 0)
  const ONE := Item(false, [1], 0, true, 0)
  const HIGH := Item(true, [9], 0, false, 0)
  const PAGE5 := Page(false, true, true, false, 0, 2, 0, [HIGH, FIVE])
  const EMPTY := Page(false, true, true, false, 1, 3, 0, [HIGH])
  const PAGE1 := Page(false, true, true, false, 2, 0, 0, [ONE])
  const DISORDERED := Index(1, 1, 0, [METAPAGE, PAGE5, EMPTY, PAGE1])

  /** A leaf without items hides disorder: 5, nothing, 1 is accepted. */
  lemma EmptyPageHidesDisorder()
    ensures LevelsOk(DISORDERED, RootLevel(DISORDERED), [[1, 2, 3]])
    ensures InFile(DISORDERED, [1, 2, 3]) && !Increasing(LevelKeys(DISORDERED, [1, 2, 3]))
  {
    DisorderedPages();
    DisorderedKeys();
    var level, chain: seq<nat> := RootLevel(DISORDERED), [1, 2, 3];
    forall i | 0 <= i < 3 ensures VisitOk(DISORDERED, level, chain[i], LeftOf(chain, i)) {
      hide PageOk;
      assert i == 0 || i == 1 || i == 2;
    }
    hide VisitOk;
    assert ChainOk(DISORDERED, level, chain);
    assert [chain][1..] == [];
    assert LevelsOk(DISORDERED, NextDown(PAGE5), []);
  }

  lemma DisorderedPages()
    ensures PageOk(DISORDERED, PAGE5) && PageOk(DISORDERED, EMPTY) && PageOk(DISORDERED, PAGE1)
  {
    FiveOk();
    OneOk();
  }

  lemma FiveOk()
    ensures ItemOk(DISORDERED, PAGE5, 2)
  {
    assert [5][..1] == [5];
    assert AttsCmp([5], [9], 0, 1) == -4;
    assert RightKey(DISORDERED, PAGE5) == Ok(None);
  }

  lemma OneOk()
    ensures ItemOk(DISORDERED, PAGE1, 1)
  {
    assert RightKey(DISORDERED, PAGE1) == Ok(None);
  }

  lemma RealKeyAt(n: nat, p: Page, i: nat)
    requires i < RealCount(p)
    ensures RealKeys(n, p)[i] == ScanKey(n, ItemAt(p, FirstReal(p) + i))
  {
  }

  lemma DisorderedKeys()
    ensures InFile(DISORDERED, [1, 2, 3]) && !Increasing(LevelKeys(DISORDERED, [1, 2, 3]))
  {
    hide RealKeys, Less, ScanKey, LevelKeys;
    var chain: seq<nat> := [1, 2, 3];
    LevelKeysStep(DISORDERED, chain, 0);
    LevelKeysStep(DISORDERED, chain, 1);
    LevelKeysStep(DISORDERED, chain, 2);
    assert chain[..3] == chain;
    RealKeyAt(1, PAGE5, 0);
    RealKeyAt(1, PAGE1, 0);
    var ks := LevelKeys(DISORDERED, chain);
    assert ks == [ScanKey(1, FIVE), ScanKey(1, ONE)];
    FiveAboveOne();
    assert !Less(ks[0], ks[1]);
  }

  lemma FiveAboveOne()
    ensures !Less(ScanKey(1, FIVE), ScanKey(1, ONE))
  {
    assert ScanKey(1, FIVE).atts[0] == 5 && ScanKey(1, ONE).atts[0] == 1;
  }
}
