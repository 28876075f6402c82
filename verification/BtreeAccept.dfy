/** amcheck accepts every sound index: acceptance spelled out on the keys of the pages. */
module BtreeAccept {
  import opened BtreeKeys
  import opened BtreeCheck
  import opened BtreeSound
  import opened Common

  // ----- pages -----

  /** The sanity conditions of a page that is read. Only block 0 is a metapage, and there nothing else is
      asked. */
  predicate Readable(idx: Index, blk: nat) {
    blk < |idx.pages| &&
    var p := idx.pages[blk];
    if blk == 0 then p.meta else
    && !p.meta && (p.leaf <==> p.level == 0) && |p.items| <= 408
    && (if p.leaf then p.next != 0 ==> |p.items| >= 1 else !p.garbage && |p.items| >= if p.next == 0 then 1 else 2)
  }

  lemma ReadableIff(idx: Index, blk: nat)
    ensures ReadPage(idx, blk).Ok? <==> Readable(idx, blk)
    ensures Readable(idx, blk) ==> ReadPage(idx, blk) == Ok(idx.pages[blk])
  {
  }

  /** The attributes and heap TIDs an item should have: a leaf item all of them; the first item of an
      internal page none; a high key or another downlink at least one attribute, and a heap TID only after
      all. */
  predicate CompleteItem(n: nat, p: Page, off: nat)
    requires 1 <= off <= |p.items|
  {
    var it := p.items[off - 1];
    var first := if p.next == 0 then 1 else 2;
    if p.leaf && off >= first then !it.pivot && |it.atts| == n
    else if off == first then it.atts == []
    else it.pivot && 1 <= |it.atts| <= n && (it.hasTid ==> |it.atts| == n)
  }

  predicate Complete(n: nat, p: Page) { forall off | 1 <= off <= |p.items| :: CompleteItem(n, p, off) }

  predicate FileComplete(idx: Index) { forall p | p in idx.pages :: Complete(idx.nkeyatts, p) }

  lemma CompleteIff(n: nat, p: Page, off: nat)
    requires 1 <= off <= MaxOffset(p)
    ensures CheckNatts(n, p, off) <==> CompleteItem(n, p, off)
  {
  }

  /** Items at the upper end of a page: below the first real item to the right, if that page has one. */
  predicate JoinsRight(idx: Index, p: Page) {
    p.next != 0 && RealCount(p) > 0 ==>
      Readable(idx, p.next) && var q := idx.pages[p.next];
      RealCount(q) > 0 ==> Less(LastKey(idx, p), FirstKey(idx, q))
  }

  predicate GoodChild(idx: Index, p: Page, off: nat)
    requires FirstReal(p) <= off <= MaxOffset(p)
  {
    var it := ItemAt(p, off);
    Readable(idx, it.down) && AllAbove(ScanKey(idx.nkeyatts, it), RealKeys(idx.nkeyatts, idx.pages[it.down]))
  }

  /** A sound page: complete items, a high key unless it is rightmost, real keys within the high key,
      strictly increasing and below those to the right, and readable children above their downlinks. */
  predicate GoodPage(idx: Index, p: Page) {
    && Complete(idx.nkeyatts, p) && (p.next != 0 ==> |p.items| >= 1)
    && BoundedAbove(idx.nkeyatts, p) && Increasing(RealKeys(idx.nkeyatts, p)) && JoinsRight(idx, p)
    && (!p.leaf ==> forall off | FirstReal(p) <= off <= MaxOffset(p) :: GoodChild(idx, p, off))
  }

  // ----- one test -----

  lemma RealKeyFormed(n: nat, p: Page, off: nat)
    requires Complete(n, p) && FirstReal(p) <= off <= MaxOffset(p)
    ensures WellFormedKey(n, ScanKey(n, ItemAt(p, off))) && !IsNegativeInfinity(p, off)
  {
    assert CompleteItem(n, p, off);
  }

  /** With complete items the strict test is the strict order. */
  lemma StrictTest(n: nat, k: Key, p: Page, off: nat)
    requires 1 <= off <= MaxOffset(p) && !IsNegativeInfinity(p, off) && WellFormedKey(n, k) && CompleteItem(n, p, off)
    ensures InvariantL(n, k, p, off) == Holds <==> Less(k, ScanKey(n, ItemAt(p, off)))
  {
    TestsMean(n, k, p, off);
    assert p.leaf && off >= FirstDataKey(p) ==> TidOf(ItemAt(p, off)).Some?;
  }

  lemma RealKeyIs(n: nat, p: Page, off: nat)
    requires FirstReal(p) <= off <= MaxOffset(p)
    ensures RealKeys(n, p)[off - FirstReal(p)] == ScanKey(n, ItemAt(p, off))
    ensures ScanKey(n, ItemAt(p, off)) in RealKeys(n, p)
  {
  }

  /** A downlink passes if and only if the child can be read and is above it. */
  lemma DownlinkIff(idx: Index, k: Key, blk: nat)
    requires FileComplete(idx) && WellFormedKey(idx.nkeyatts, k)
    ensures DownlinkOk(idx, k, blk) <==> Readable(idx, blk) && AllAbove(k, RealKeys(idx.nkeyatts, idx.pages[blk]))
  {
    hide InvariantL, Less, ReadPage, WellFormedKey, ScanKey, CompleteItem;
    ReadableIff(idx, blk);
    if DownlinkOk(idx, k, blk) { ChildAbove(idx, k, blk); }
    if Readable(idx, blk) && AllAbove(k, RealKeys(idx.nkeyatts, idx.pages[blk])) {
      var c := idx.pages[blk];
      assert c in idx.pages;
      forall off | FirstDataKey(c) <= off <= MaxOffset(c) ensures BelowChildItem(idx.nkeyatts, k, c, off) {
        if !IsNegativeInfinity(c, off) {
          assert CompleteItem(idx.nkeyatts, c, off);
          RealKeyIs(idx.nkeyatts, c, off);
          StrictTest(idx.nkeyatts, k, c, off);
        }
      }
    }
  }

  // ----- one item -----

  lemma UpperIff(n: nat, p: Page, off: nat)
    requires Complete(n, p) && p.next != 0 && |p.items| >= 1 && FirstReal(p) <= off <= MaxOffset(p)
    ensures var k, h := ScanKey(n, ItemAt(p, off)), ScanKey(n, ItemAt(p, P_HIKEY));
            UpperBoundOk(k, p, n) <==> if p.leaf then AtMost(k, h) else Less(k, h)
  {
    hide InvariantL, InvariantLeq, Less, AtMost, ScanKey, CompleteItem;
    var k := ScanKey(n, ItemAt(p, off));
    RealKeyFormed(n, p, off);
    assert CompleteItem(n, p, P_HIKEY);
    TestsMean(n, k, p, P_HIKEY);
    StrictTest(n, k, p, P_HIKEY);
  }

  lemma InnerNextIff(idx: Index, p: Page, off: nat)
    requires Complete(idx.nkeyatts, p) && FirstReal(p) <= off && off + 1 <= MaxOffset(p)
    ensures var n := idx.nkeyatts; var k := ScanKey(n, ItemAt(p, off));
            NextOk(idx, k, p, off) <==> Less(k, ScanKey(n, ItemAt(p, off + 1)))
  {
    hide InvariantL, Less, ScanKey, CompleteItem;
    var n := idx.nkeyatts;
    RealKeyFormed(n, p, off);
    RealKeyFormed(n, p, off + 1);
    assert CompleteItem(n, p, off + 1);
    StrictTest(n, ScanKey(n, ItemAt(p, off)), p, off + 1);
  }

  lemma LastNextIff(idx: Index, p: Page)
    requires FileComplete(idx) && Complete(idx.nkeyatts, p) && RealCount(p) > 0
    ensures NextOk(idx, ScanKey(idx.nkeyatts, ItemAt(p, MaxOffset(p))), p, MaxOffset(p)) <==> JoinsRight(idx, p)
  {
    hide InvariantG, Less, ScanKey, CompleteItem, ReadPage, Complete;
    var n, off := idx.nkeyatts, MaxOffset(p);
    ReadableIff(idx, p.next);
    RealKeyFormed(n, p, off);
    RealKeyIs(n, p, off);
    if p.next != 0 && Readable(idx, p.next) {
      var q := idx.pages[p.next];
      if RealCount(q) > 0 {
        assert q in idx.pages;
        RealKeyFormed(n, q, FirstReal(q));
        RealKeyIs(n, q, FirstReal(q));
        TestsMean(n, FirstKey(idx, q), p, off);
      }
    }
  }

  // ----- one page -----

  /** With complete items in the file, a page passes the checks if and only if it is sound. */
  lemma PageIff(idx: Index, p: Page)
    requires FileComplete(idx) && p in idx.pages
    ensures PageOk(idx, p) <==> GoodPage(idx, p)
  {
    hide PageOk, GoodPage;
    if PageOk(idx, p) { PageIsGood(idx, p); }
    if GoodPage(idx, p) { GoodPasses(idx, p); }
  }

  lemma GoodPasses(idx: Index, p: Page)
    requires FileComplete(idx) && p in idx.pages && GoodPage(idx, p)
    ensures PageOk(idx, p)
  {
    hide ItemOk, CheckNatts, CompleteItem, BoundedAbove, Increasing, JoinsRight, GoodChild, RealKeys;
    var n := idx.nkeyatts;
    if !Rightmost(p) { CompleteIff(n, p, P_HIKEY); }
    forall off | FirstDataKey(p) <= off <= MaxOffset(p) ensures ItemOk(idx, p, off) {
      CompleteIff(n, p, off);
      if off >= FirstReal(p) { GoodItem(idx, p, off); } else { FirstItem(idx, p, off); }
    }
  }

  lemma FirstItem(idx: Index, p: Page, off: nat)
    requires 1 <= off <= MaxOffset(p) && FirstDataKey(p) <= off < FirstReal(p) && CheckNatts(idx.nkeyatts, p, off)
    ensures ItemOk(idx, p, off)
  {
  }

  lemma GoodItem(idx: Index, p: Page, off: nat)
    requires FileComplete(idx) && p in idx.pages && GoodPage(idx, p) && FirstReal(p) <= off <= MaxOffset(p)
    requires CheckNatts(idx.nkeyatts, p, off)
    ensures ItemOk(idx, p, off)
  {
    hide UpperBoundOk, NextOk, DownlinkOk, CheckNatts, CompleteItem, JoinsRight, Less, AtMost, ScanKey, FileComplete;
    var n := idx.nkeyatts;
    var k := ScanKey(n, ItemAt(p, off));
    RealKeyFormed(n, p, off);
    RealKeyIs(n, p, off);
    if p.next != 0 { UpperIff(n, p, off); } else { NoUpper(n, k, p); }
    if off < MaxOffset(p) {
      RealKeyIs(n, p, off + 1);
      InnerNextIff(idx, p, off);
    } else {
      LastNextIff(idx, p);
    }
    if !p.leaf {
      assert GoodChild(idx, p, off);
      DownlinkIff(idx, k, ItemAt(p, off).down);
    }
  }

  lemma NoUpper(n: nat, k: Key, p: Page)
    requires p.next == 0
    ensures UpperBoundOk(k, p, n)
  {
  }

  lemma PageIsGood(idx: Index, p: Page)
    requires FileComplete(idx) && p in idx.pages && PageOk(idx, p)
    ensures GoodPage(idx, p)
  {
    hide ItemOk, CheckNatts, BoundedAbove, Increasing, ChildrenAbove, JoinsRight, RealKeys, Complete;
    PageBounded(idx, p);
    PageIncreasing(idx, p);
    if RealCount(p) > 0 {
      ItemPasses(idx, p, MaxOffset(p));
      LastNextIff(idx, p);
    } else {
      NothingJoins(idx, p);
    }
    if !p.leaf {
      forall off | FirstReal(p) <= off <= MaxOffset(p) ensures GoodChild(idx, p, off) {
        ItemPasses(idx, p, off);
        RealKeyFormed(idx.nkeyatts, p, off);
        DownlinkIff(idx, ScanKey(idx.nkeyatts, ItemAt(p, off)), ItemAt(p, off).down);
      }
    }
  }

  lemma NothingJoins(idx: Index, p: Page)
    requires RealCount(p) == 0
    ensures JoinsRight(idx, p)
  {
  }

  lemma ItemPasses(idx: Index, p: Page, off: nat)
    requires PageOk(idx, p) && FirstReal(p) <= off <= MaxOffset(p)
    ensures var k := ScanKey(idx.nkeyatts, ItemAt(p, off));
            NextOk(idx, k, p, off) && (!p.leaf ==> DownlinkOk(idx, k, ItemAt(p, off).down))
  {
    hide UpperBoundOk, NextOk, DownlinkOk, CheckNatts;
    assert ItemOk(idx, p, off);
  }

  // ----- levels -----

  /** A sound level: its blocks in order from the first on, linked both ways, every page readable, at the
      level's number and sound; the true root says that it is. */
  predicate GoodLevel(idx: Index, number: nat, start: nat, top: bool, chain: seq<nat>) {
    && |chain| > 0 && chain[0] == start && InFile(idx, chain) && Linked(idx, chain)
    && (top ==> PageOf(idx, chain, 0).root)
    && forall i | 0 <= i < |chain| ::
         var p := PageOf(idx, chain, i); Readable(idx, chain[i]) && p.level == number && GoodPage(idx, p)
  }

  lemma LevelIff(idx: Index, level: Level, chain: seq<nat>)
    requires FileComplete(idx)
    ensures ChainOk(idx, level, chain) <==> GoodLevel(idx, level.level, level.leftmost, level.isTrueRoot, chain)
  {
    hide ChainOk, GoodLevel;
    if ChainOk(idx, level, chain) { LevelIsGood(idx, level, chain); }
    if GoodLevel(idx, level.level, level.leftmost, level.isTrueRoot, chain) { GoodLevelPasses(idx, level, chain); }
  }

  lemma LevelIsGood(idx: Index, level: Level, chain: seq<nat>)
    requires FileComplete(idx) && ChainOk(idx, level, chain)
    ensures GoodLevel(idx, level.level, level.leftmost, level.isTrueRoot, chain)
  {
    hide ChainOk, PageOk, ReadPage, GoodPage, Readable, FileComplete;
    ChainBegins(idx, level, chain);
    ChainInFile(idx, level, chain);
    TrueRootSays(idx, level, chain);
    forall i | 0 <= i < |chain|
      ensures var p := PageOf(idx, chain, i);
              && Readable(idx, chain[i]) && p.level == level.level && GoodPage(idx, p)
              && p.prev == LeftOf(chain, i) && p.next == RightOf(chain, i)
    {
      VisitedPage(idx, level, chain, i);
      ReadableIff(idx, chain[i]);
      assert PageOf(idx, chain, i) in idx.pages;
      PageIff(idx, PageOf(idx, chain, i));
    }
  }

  lemma TrueRootSays(idx: Index, level: Level, chain: seq<nat>)
    requires ChainOk(idx, level, chain)
    ensures chain[0] < |idx.pages| && (level.isTrueRoot ==> idx.pages[chain[0]].root)
  {
    hide PageOk;
    ChainVisits(idx, level, chain, 0);
    VisitedIsLive(idx, level, chain[0], LeftOf(chain, 0));
  }

  lemma GoodLevelPasses(idx: Index, level: Level, chain: seq<nat>)
    requires FileComplete(idx) && GoodLevel(idx, level.level, level.leftmost, level.isTrueRoot, chain)
    ensures ChainOk(idx, level, chain)
  {
    hide PageOk, ReadPage, GoodPage, Readable, FileComplete;
    forall i | 0 <= i < |chain| ensures VisitOk(idx, level, chain[i], LeftOf(chain, i)) {
      var p := PageOf(idx, chain, i);
      ReadableIff(idx, chain[i]);
      assert p in idx.pages && p.prev == LeftOf(chain, i);
      PageIff(idx, p);
    }
  }

  // ----- the tree -----

  /** Where the level below begins: the first downlink of the leftmost page; 0 below leaves. */
  function FirstChild(p: Page): nat {
    var first := if p.next == 0 then 1 else 2;
    if p.leaf || |p.items| < first then 0 else p.items[first - 1].down
  }

  /** Sound levels one below the other, each beginning at the first child of the one above, until there is
      none. */
  predicate GoodLevels(idx: Index, number: nat, start: nat, top: bool, levels: seq<seq<nat>>)
    decreases |levels|
  {
    if start == 0 then |levels| == 0 else
    |levels| > 0 && GoodLevel(idx, number, start, top, levels[0]) && start < |idx.pages| &&
    var child := FirstChild(idx.pages[start]);
    if child == 0 then |levels| == 1 else number > 0 && GoodLevels(idx, number - 1, child, false, levels[1..])
  }

  lemma {:induction false} LevelsIff(idx: Index, level: Level, levels: seq<seq<nat>>)
    requires FileComplete(idx)
    ensures LevelsOk(idx, level, levels) <==> GoodLevels(idx, level.level, level.leftmost, level.isTrueRoot, levels)
    decreases |levels|
  {
    hide ChainOk, GoodLevel, FileComplete;
    if level.leftmost != P_NONE && |levels| > 0 {
      LevelIff(idx, level, levels[0]);
      if ChainOk(idx, level, levels[0]) {
        HeadPage(idx, level, levels[0]);
        var next := NextDown(idx.pages[level.leftmost]);
        LevelsIff(idx, next, levels[1..]);
      }
    }
  }

  lemma HeadPage(idx: Index, level: Level, chain: seq<nat>)
    requires ChainOk(idx, level, chain) && level.leftmost != P_NONE
    ensures level.leftmost < |idx.pages|
    ensures var p := idx.pages[level.leftmost];
            && NextDown(p).leftmost == FirstChild(p) && !NextDown(p).isTrueRoot
            && (FirstChild(p) != 0 ==> level.level > 0 && NextDown(p).level == level.level - 1)
  {
    hide PageOk, ChainOk, ReadPage, NextDown, FirstChild;
    ChainBegins(idx, level, chain);
    VisitedPage(idx, level, chain, 0);
    ReadLevel(idx, level.leftmost);
    NextDownIs(idx.pages[level.leftmost]);
  }

  lemma NextDownIs(p: Page)
    requires (p.leaf <==> p.level == 0) && (!p.leaf ==> FirstDataKey(p) <= MaxOffset(p))
    ensures NextDown(p).leftmost == FirstChild(p) && !NextDown(p).isTrueRoot
    ensures FirstChild(p) != 0 ==> p.level > 0 && NextDown(p).level == p.level - 1
  {
  }

  /** The whole index, from the root that the metapage names. */
  ghost predicate SoundIndex(idx: Index) { exists levels :: GoodLevels(idx, idx.rootLevel, idx.root, true, levels) }

  /** amcheck finds no error in an index whose items are complete if and only if the index is sound: what
      it reports is a fault, and it misses none of these. */
  lemma AcceptedIff(idx: Index)
    requires FileComplete(idx)
    ensures Passes(idx, RootLevel(idx)) <==> SoundIndex(idx)
  {
    hide LevelsOk, GoodLevels, FileComplete;
    if Passes(idx, RootLevel(idx)) {
      var levels :| LevelsOk(idx, RootLevel(idx), levels);
      LevelsIff(idx, RootLevel(idx), levels);
    }
    if SoundIndex(idx) {
      var levels :| GoodLevels(idx, idx.rootLevel, idx.root, true, levels);
      LevelsIff(idx, RootLevel(idx), levels);
    }
  }
}
