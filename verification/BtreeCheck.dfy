/** amcheck's walk over a B-tree in readonly mode, and exactly when it accepts. */
module BtreeCheck {
  import opened BtreeKeys
  import opened Common

  /** An index: number of key attributes, what the metapage says of the root, and all blocks, block 0
      being the metapage. No block is deleted or half-dead. */
  datatype Index = Index(nkeyatts: nat, root: nat, rootLevel: nat, pages: seq<Page>)

  /** BtreeLevel: a level to check and its leftmost block. */
  datatype Level = Level(level: nat, leftmost: nat, isTrueRoot: bool)

  datatype Error =
    | ReadPastEnd | CorruptMeta | InvalidMeta | LeafLevel | InternalLevel | TooManyItems
    | LacksDownlink | LacksHighKey | Garbage
    | HighKeyAtts | ItemAtts | LacksHeapTid | HighKeyViolated | ItemOrder | CrossPageOrder | DownlinkViolated
    | NotLeftmost | NotTrueRoot | SiblingsDisagree | WrongLevel | Circular

  datatype Result<T> = Ok(value: T) | Err(error: Error)

  // ----- reading a page -----

  /** palloc_btree_page: the page, or the sanity check that it fails. */
  function ReadPage(idx: Index, blk: nat): Result<Page> {
    if blk >= |idx.pages| then Err(ReadPastEnd) else
    var p := idx.pages[blk];
    if p.meta && blk != 0 then Err(InvalidMeta)
    else if blk == 0 then (if p.meta then Ok(p) else Err(CorruptMeta))
    else if p.leaf && p.level != 0 then Err(LeafLevel)
    else if !p.leaf && p.level == 0 then Err(InternalLevel)
    else if MaxOffset(p) > MAX_ITEMS then Err(TooManyItems)
    else if !p.leaf && MaxOffset(p) < FirstDataKey(p) then Err(LacksDownlink)
    else if p.leaf && !Rightmost(p) && MaxOffset(p) < P_HIKEY then Err(LacksHighKey)
    else if !p.leaf && p.garbage then Err(Garbage)
    else Ok(p)
  }

  /** _bt_check_natts: items of leaves are complete, the first one of an internal page is empty, all
      other pivots have some attribute and a heap TID only after all of them. */
  predicate CheckNatts(n: nat, p: Page, off: nat)
    requires 1 <= off <= MaxOffset(p)
  {
    var it := ItemAt(p, off);
    if p.leaf && off >= FirstDataKey(p) then !it.pivot && |it.atts| == n
    else if !p.leaf && off == FirstDataKey(p) then |it.atts| == 0
    else it.pivot && !(TidOf(it).Some? && |it.atts| != n) && 0 < |it.atts| <= n
  }

  // ----- the checks of one page -----

  /** bt_right_page_check_scankey: the first real item to the right, if there is one to be had. */
  function RightKey(idx: Index, p: Page): Result<Option<Key>> {
    if Rightmost(p) then Ok(None) else
    match ReadPage(idx, p.next)
    case Err(e) => Err(e)
    case Ok(q) =>
      var off := if q.leaf then FirstDataKey(q) else FirstDataKey(q) + 1;
      Ok(if MaxOffset(q) >= off then Some(ScanKey(idx.nkeyatts, ItemAt(q, off))) else None)
  }

  predicate BelowChildItem(n: nat, k: Key, child: Page, off: nat)
    requires 1 <= off <= MaxOffset(child)
  {
    !IsNegativeInfinity(child, off) ==> InvariantL(n, k, child, off) == Holds
  }

  /** The child can be read and every real item in it is above the key. */
  predicate DownlinkOk(idx: Index, k: Key, blk: nat) {
    var r := ReadPage(idx, blk);
    r.Ok? && forall off | FirstDataKey(r.value) <= off <= MaxOffset(r.value) ::
      BelowChildItem(idx.nkeyatts, k, r.value, off)
  }

  /** bt_downlink_check */
  method DownlinkCheck(idx: Index, targetkey: Key, childblock: nat) returns (r: Option<Error>)
    ensures r.None? <==> DownlinkOk(idx, targetkey, childblock)
  {
    hide InvariantL, ReadPage;
    var child := ReadPage(idx, childblock);
    if child.Err? { return Some(child.error); }
    var c := child.value;
    var offset := FirstDataKey(c);
    while offset <= MaxOffset(c)
      invariant forall o | FirstDataKey(c) <= o < offset && o <= MaxOffset(c) ::
                BelowChildItem(idx.nkeyatts, targetkey, c, o)
    {
      if !IsNegativeInfinity(c, offset) {
        var v := InvariantL(idx.nkeyatts, targetkey, c, offset);
        if v != Holds {
          assert !BelowChildItem(idx.nkeyatts, targetkey, c, offset);
          return Some(AsError(v, DownlinkViolated));
        }
      }
      offset := offset + 1;
    }
    return None;
  }

  predicate UpperBoundOk(k: Key, p: Page, n: nat)
    requires !Rightmost(p) ==> P_HIKEY <= MaxOffset(p)
  {
    !Rightmost(p) ==> if p.leaf then InvariantLeq(k, p, P_HIKEY) else InvariantL(n, k, p, P_HIKEY) == Holds
  }

  predicate NextOk(idx: Index, k: Key, p: Page, off: nat)
    requires 1 <= off <= MaxOffset(p)
  {
    if off + 1 <= MaxOffset(p) then InvariantL(idx.nkeyatts, k, p, off + 1) == Holds else
    var r := RightKey(idx, p);
    r.Ok? && (r.value.Some? ==> InvariantG(r.value.value, p, off))
  }

  /** Everything the loop of bt_target_page_check asks of one item. */
  predicate ItemOk(idx: Index, p: Page, off: nat)
    requires 1 <= off <= MaxOffset(p)
  {
    && CheckNatts(idx.nkeyatts, p, off)
    && (!IsNegativeInfinity(p, off) ==>
          var k := ScanKey(idx.nkeyatts, ItemAt(p, off));
          && UpperBoundOk(k, p, idx.nkeyatts) && NextOk(idx, k, p, off)
          && (!p.leaf ==> DownlinkOk(idx, k, ItemAt(p, off).down)))
  }

  predicate PageOk(idx: Index, p: Page) {
    && (!Rightmost(p) ==> P_HIKEY <= MaxOffset(p) && CheckNatts(idx.nkeyatts, p, P_HIKEY))
    && forall off | FirstDataKey(p) <= off <= MaxOffset(p) :: ItemOk(idx, p, off)
  }

  function AsError(v: Verdict, e: Error): Error { if v == LacksTid then LacksHeapTid else e }

  method CheckUpperBound(n: nat, k: Key, p: Page) returns (r: Option<Error>)
    requires !Rightmost(p) ==> P_HIKEY <= MaxOffset(p)
    ensures r.None? <==> UpperBoundOk(k, p, n)
  {
    if Rightmost(p) { return None; }
    if p.leaf { return if InvariantLeq(k, p, P_HIKEY) then None else Some(HighKeyViolated); }
    var v := InvariantL(n, k, p, P_HIKEY);
    return if v == Holds then None else Some(AsError(v, HighKeyViolated));
  }

  /** The order check of an item against its successor, on the page or on the one to the right. */
  method CheckNext(idx: Index, k: Key, p: Page, off: nat) returns (r: Option<Error>)
    requires 1 <= off <= MaxOffset(p)
    ensures r.None? <==> NextOk(idx, k, p, off)
  {
    if off + 1 <= MaxOffset(p) {
      var v := InvariantL(idx.nkeyatts, k, p, off + 1);
      return if v == Holds then None else Some(AsError(v, ItemOrder));
    }
    var rightkey := RightKey(idx, p);
    if rightkey.Err? { return Some(rightkey.error); }
    if rightkey.value.Some? && !InvariantG(rightkey.value.value, p, off) { return Some(CrossPageOrder); }
    return None;
  }

  /** The body of bt_target_page_check's loop. */
  method CheckItem(idx: Index, p: Page, off: nat) returns (r: Option<Error>)
    requires FirstDataKey(p) <= off <= MaxOffset(p)
    ensures r.None? <==> ItemOk(idx, p, off)
  {
    hide UpperBoundOk, NextOk, DownlinkOk, CheckNatts;
    if !CheckNatts(idx.nkeyatts, p, off) { return Some(ItemAtts); }
    if IsNegativeInfinity(p, off) { return None; }
    var itup := ItemAt(p, off);
    var skey := ScanKey(idx.nkeyatts, itup);
    r := CheckUpperBound(idx.nkeyatts, skey, p);
    if r.Some? { return; }
    r := CheckNext(idx, skey, p, off);
    if r.Some? { return; }
    if !p.leaf {
      r := DownlinkCheck(idx, skey, itup.down);
    }
  }

  /** bt_target_page_check */
  method TargetPageCheck(idx: Index, p: Page) returns (r: Option<Error>)
    requires !Rightmost(p) ==> P_HIKEY <= MaxOffset(p)
    ensures r.None? <==> PageOk(idx, p)
  {
    hide ItemOk, CheckNatts;
    if !Rightmost(p) {
      if !CheckNatts(idx.nkeyatts, p, P_HIKEY) { return Some(HighKeyAtts); }
    }
    for offset := FirstDataKey(p) to MaxOffset(p) + 1
      invariant forall o | FirstDataKey(p) <= o < offset :: ItemOk(idx, p, o)
    {
      r := CheckItem(idx, p, offset);
      if r.Some? { return; }
    }
    return None;
  }

  // ----- one level -----

  /** What the walk asks of the page it is on, given the page it came from. */
  predicate VisitOk(idx: Index, level: Level, blk: nat, left: nat) {
    blk != P_NONE && ReadPage(idx, blk).Ok? &&
    var p := ReadPage(idx, blk).value;
    && (left == P_NONE ==> Leftmost(p) && (level.isTrueRoot ==> p.root))
    && p.prev == left && p.level == level.level && PageOk(idx, p)
  }

  function LeftOf(chain: seq<nat>, i: nat): nat
    requires i < |chain|
  {
    if i == 0 then P_NONE else chain[i - 1]
  }

  /** The blocks from the leftmost on along right links, all of them in order. */
  ghost predicate ChainOk(idx: Index, level: Level, chain: seq<nat>) {
    && |chain| > 0 && chain[0] == level.leftmost
    && (forall i | 0 <= i < |chain| :: VisitOk(idx, level, chain[i], LeftOf(chain, i)))
    && (forall i | 0 <= i < |chain| - 1 :: idx.pages[chain[i]].next == chain[i + 1])
    && idx.pages[chain[|chain| - 1]].next == P_NONE
  }

  /** The start of a chain, as far as the walk has come. */
  ghost predicate Visited(idx: Index, level: Level, seen: seq<nat>, current: nat) {
    && (forall i | 0 <= i < |seen| :: VisitOk(idx, level, seen[i], LeftOf(seen, i)))
    && (if |seen| == 0 then current == level.leftmost
        else seen[0] == level.leftmost && idx.pages[seen[|seen| - 1]].next == current)
    && (forall i | 0 <= i < |seen| - 1 :: idx.pages[seen[i]].next == seen[i + 1])
  }

  lemma VisitedIsLive(idx: Index, level: Level, blk: nat, left: nat)
    requires VisitOk(idx, level, blk, left)
    ensures 0 < blk < |idx.pages| && ReadPage(idx, blk).value == idx.pages[blk] && idx.pages[blk].prev == left
  {
  }

  /** Sibling agreement makes every block of the walk new: left links would lead back from a second
      visit to two different blocks. */
  lemma {:induction false} NoRevisit(idx: Index, level: Level, seen: seq<nat>, i: nat, j: nat)
    requires i < j < |seen|
    requires forall k | 0 <= k < |seen| :: VisitOk(idx, level, seen[k], LeftOf(seen, k))
    ensures seen[i] != seen[j]
    decreases i
  {
    hide VisitOk;
    VisitedIsLive(idx, level, seen[i], LeftOf(seen, i));
    VisitedIsLive(idx, level, seen[j], LeftOf(seen, j));
    VisitedIsLive(idx, level, seen[j - 1], LeftOf(seen, j - 1));
    if i > 0 { NoRevisit(idx, level, seen, i - 1, j - 1); }
  }

  function Blocks(s: seq<nat>): set<nat> { set b | b in s }

  /** So a walk visits at most as many blocks as there are. */
  lemma WalkBound(idx: Index, level: Level, seen: seq<nat>, current: nat)
    requires Visited(idx, level, seen, current)
    ensures |seen| < |idx.pages| || |seen| == 0
  {
    hide VisitOk;
    if |seen| > 0 {
      forall i, j | 0 <= i < j < |seen| ensures seen[i] != seen[j] { NoRevisit(idx, level, seen, i, j); }
      DistinctSize(seen);
      BlocksLive(idx, level, seen);
      SizeBelow(|idx.pages|, Blocks(seen) + {P_NONE});
    }
  }

  lemma BlocksLive(idx: Index, level: Level, seen: seq<nat>)
    requires |seen| > 0 && forall i | 0 <= i < |seen| :: VisitOk(idx, level, seen[i], LeftOf(seen, i))
    ensures |idx.pages| > 0 && forall b | b in Blocks(seen) :: P_NONE < b < |idx.pages|
  {
    hide VisitOk;
    VisitedIsLive(idx, level, seen[0], LeftOf(seen, 0));
    forall b | b in Blocks(seen) ensures P_NONE < b < |idx.pages| {
      var i :| 0 <= i < |seen| && seen[i] == b;
      VisitedIsLive(idx, level, seen[i], LeftOf(seen, i));
    }
  }

  lemma {:induction false} DistinctSize(s: seq<nat>)
    requires forall i, j | 0 <= i < j < |s| :: s[i] != s[j]
    ensures |Blocks(s)| == |s|
    decreases |s|
  {
    if |s| == 0 {
      assert Blocks(s) == {};
    } else {
      var t := s[..|s| - 1];
      DistinctSize(t);
      assert Blocks(s) == Blocks(t) + {s[|s| - 1]};
    }
  }

  /** A chain that passes the checks starts with what the walk has seen. */
  lemma {:induction false} ChainDetermined(idx: Index, level: Level, seen: seq<nat>, current: nat,
                                 chain: seq<nat>, k: nat)
    requires Visited(idx, level, seen, current) && current != P_NONE && ChainOk(idx, level, chain) && k <= |seen|
    ensures k < |chain| && chain[k] == if k < |seen| then seen[k] else current
    decreases k
  {
    hide VisitOk, Visited, ChainOk;
    if k == 0 {
      ChainStarts(idx, level, seen, current, chain);
    } else {
      ChainDetermined(idx, level, seen, current, chain, k - 1);
      SeenGoesOn(idx, level, seen, current, k - 1);
      ChainGoesOn(idx, level, chain, k - 1);
    }
  }

  lemma ChainStarts(idx: Index, level: Level, seen: seq<nat>, current: nat, chain: seq<nat>)
    requires Visited(idx, level, seen, current) && ChainOk(idx, level, chain)
    ensures |chain| > 0 && chain[0] == if |seen| > 0 then seen[0] else current
  {
    hide VisitOk;
  }

  lemma SeenGoesOn(idx: Index, level: Level, seen: seq<nat>, current: nat, k: nat)
    requires Visited(idx, level, seen, current) && k < |seen| && current != P_NONE
    ensures seen[k] < |idx.pages| && idx.pages[seen[k]].next
              == (if k + 1 < |seen| then seen[k + 1] else current) != P_NONE
  {
    hide VisitOk;
    VisitedIsLive(idx, level, seen[k], LeftOf(seen, k));
    if k + 1 < |seen| { VisitedIsLive(idx, level, seen[k + 1], LeftOf(seen, k + 1)); }
  }

  lemma ChainGoesOn(idx: Index, level: Level, chain: seq<nat>, k: nat)
    requires ChainOk(idx, level, chain) && k < |chain|
    ensures chain[k] < |idx.pages| && idx.pages[chain[k]].next == if k + 1 < |chain| then chain[k + 1] else P_NONE
  {
    hide VisitOk;
    VisitedIsLive(idx, level, chain[k], LeftOf(chain, k));
  }

  /** The level below: at the first downlink of the leftmost page, or none below leaves. */
  function NextDown(p: Page): Level {
    if p.leaf || p.level == 0 || MaxOffset(p) < FirstDataKey(p) then Level(0, P_NONE, false)
    else Level(p.level - 1, ItemAt(p, FirstDataKey(p)).down, false)
  }

  /** One turn of the walk: the checks on the current page. */
  method VisitPage(idx: Index, level: Level, current: nat, leftcurrent: nat) returns (r: Result<Page>)
    requires current != P_NONE
    ensures r.Ok? <==> VisitOk(idx, level, current, leftcurrent)
    ensures r.Ok? ==> Ok(r.value) == ReadPage(idx, current)
  {
    hide PageOk;
    r := ReadPage(idx, current);
    if r.Err? { return; }
    var p := r.value;
    if leftcurrent == P_NONE {
      if !Leftmost(p) { return Err(NotLeftmost); }
      if level.isTrueRoot && !p.root { return Err(NotTrueRoot); }
    }
    if p.prev != leftcurrent { return Err(SiblingsDisagree); }
    if level.level != p.level { return Err(WrongLevel); }
    ReadHasHighKey(idx, current);
    var e := TargetPageCheck(idx, p);
    if e.Some? { return Err(e.value); }
  }

  lemma ReadHasHighKey(idx: Index, blk: nat)
    requires blk != P_NONE && ReadPage(idx, blk).Ok?
    ensures var p := ReadPage(idx, blk).value;
            && (!Rightmost(p) ==> P_HIKEY <= MaxOffset(p))
            && (!p.leaf ==> FirstDataKey(p) <= MaxOffset(p) && p.level > 0) && (p.leaf ==> p.level == 0)
  {
  }

  /** bt_check_level_from_leftmost: ends, and accepts exactly if the right links from the leftmost block
      run through pages that pass all checks; it then returns the level below. */
  method CheckLevelFromLeftmost(idx: Index, level: Level) returns (r: Result<Level>)
    requires level.leftmost != P_NONE
    ensures r.Ok? <==> exists chain :: ChainOk(idx, level, chain)
    ensures r.Ok? ==> FirstVisited(idx, level, r.value)
  {
    hide VisitOk;
    var leftcurrent, current := P_NONE, level.leftmost;
    var nextleveldown := Level(0, P_NONE, false);
    ghost var seen: seq<nat> := [];
    while current != P_NONE
      invariant Visited(idx, level, seen, current)
      invariant leftcurrent == if |seen| == 0 then P_NONE else seen[|seen| - 1]
      invariant |seen| == 0 ==> current == level.leftmost
      invariant |seen| > 0 ==> FirstVisited(idx, level, nextleveldown)
      decreases |idx.pages| - |seen|
    {
      NoneIsFirst(idx, level, seen, current, leftcurrent);
      var visit := VisitPage(idx, level, current, leftcurrent);
      if visit.Err? {
        ChainsEnd(idx, level, seen, current, leftcurrent);
        return Err(visit.error);
      }
      var p := visit.value;
      VisitedIsLive(idx, level, current, leftcurrent);
      if leftcurrent == P_NONE {
        nextleveldown := NextDown(p);
        FirstIs(idx, level, seen, leftcurrent, nextleveldown);
      }
      ghost var more := seen + [current];
      Extend(idx, level, seen, current, p.next, leftcurrent);
      if |seen| > 0 { NoRevisit(idx, level, more, |seen| - 1, |seen|); }
      WalkBound(idx, level, more, p.next);
      if current == leftcurrent || current == p.prev { return Err(Circular); }
      leftcurrent := current;
      current := p.next;
      seen := more;
    }
    r := Ok(nextleveldown);
    assert ChainOk(idx, level, seen);
  }

  predicate FirstVisited(idx: Index, level: Level, next: Level) {
    level.leftmost < |idx.pages| && idx.pages[level.leftmost].level == level.level
    && next == NextDown(idx.pages[level.leftmost])
  }

  lemma FirstIs(idx: Index, level: Level, seen: seq<nat>, left: nat, next: Level)
    requires |seen| == 0 && level.leftmost != P_NONE && VisitOk(idx, level, level.leftmost, left)
    requires next == NextDown(ReadPage(idx, level.leftmost).value)
    ensures FirstVisited(idx, level, next)
  {
  }

  lemma Extend(idx: Index, level: Level, seen: seq<nat>, current: nat, next: nat, left: nat)
    requires Visited(idx, level, seen, current) && VisitOk(idx, level, current, left)
    requires left == (if |seen| == 0 then P_NONE else seen[|seen| - 1])
             && current < |idx.pages| && next == idx.pages[current].next
    ensures Visited(idx, level, seen + [current], next)
  {
    hide VisitOk;
    var more := seen + [current];
    forall i | 0 <= i < |more| ensures VisitOk(idx, level, more[i], LeftOf(more, i)) {
      if i < |seen| { assert VisitOk(idx, level, seen[i], LeftOf(seen, i)); }
    }
  }

  /** Where a check fails no chain goes on. */
  lemma ChainsEnd(idx: Index, level: Level, seen: seq<nat>, current: nat, left: nat)
    requires Visited(idx, level, seen, current) && current != P_NONE && !VisitOk(idx, level, current, left)
    requires left == if |seen| == 0 then P_NONE else seen[|seen| - 1]
    ensures !exists chain :: ChainOk(idx, level, chain)
  {
    hide VisitOk, Visited, ChainOk;
    forall chain | ChainOk(idx, level, chain) ensures false {
      ChainDetermined(idx, level, seen, current, chain, |seen|);
      if |seen| > 0 { ChainDetermined(idx, level, seen, current, chain, |seen| - 1); }
      ChainVisits(idx, level, chain, |seen|);
    }
  }

  lemma ChainVisits(idx: Index, level: Level, chain: seq<nat>, k: nat)
    requires ChainOk(idx, level, chain) && k < |chain|
    ensures VisitOk(idx, level, chain[k], LeftOf(chain, k))
  {
  }

  lemma NoneIsFirst(idx: Index, level: Level, seen: seq<nat>, current: nat, left: nat)
    requires Visited(idx, level, seen, current) && left == if |seen| == 0 then P_NONE else seen[|seen| - 1]
    ensures left == P_NONE <==> |seen| == 0
  {
    hide VisitOk;
    if |seen| > 0 { VisitedIsLive(idx, level, left, LeftOf(seen, |seen| - 1)); }
  }

  // ----- every level -----

  /** The chains of the levels from one on down, each starting at the first downlink of the leftmost
      page above; the last one has none below it. */
  ghost predicate LevelsOk(idx: Index, level: Level, levels: seq<seq<nat>>)
    decreases |levels|
  {
    if level.leftmost == P_NONE then |levels| == 0 else
    |levels| > 0 && ChainOk(idx, level, levels[0]) && level.leftmost < |idx.pages|
    && LevelsOk(idx, NextDown(idx.pages[level.leftmost]), levels[1..])
  }

  ghost predicate Passes(idx: Index, level: Level) { exists levels :: LevelsOk(idx, level, levels) }

  function RootLevel(idx: Index): Level { Level(idx.rootLevel, idx.root, true) }

  lemma PassesStep(idx: Index, level: Level, next: Level)
    requires level.leftmost != P_NONE
    ensures Passes(idx, level) ==> exists chain :: ChainOk(idx, level, chain)
    ensures (exists chain :: ChainOk(idx, level, chain)) && FirstVisited(idx, level, next)
            ==> (Passes(idx, level) <==> Passes(idx, next))
  {
    hide ChainOk;
    if Passes(idx, level) {
      var levels :| LevelsOk(idx, level, levels);
      assert ChainOk(idx, level, levels[0]);
      assert FirstVisited(idx, level, next) ==> LevelsOk(idx, next, levels[1..]);
    }
    if (exists chain :: ChainOk(idx, level, chain)) && FirstVisited(idx, level, next) && Passes(idx, next) {
      var chain :| ChainOk(idx, level, chain);
      var levels :| LevelsOk(idx, next, levels);
      assert ([chain] + levels)[1..] == levels;
      assert LevelsOk(idx, level, [chain] + levels);
    }
  }

  lemma PassesNone(idx: Index, level: Level)
    requires level.leftmost == P_NONE
    ensures Passes(idx, level)
  {
    assert LevelsOk(idx, level, []);
  }

  /** The level loop of bt_check_every_level: always ends, and finds no error exactly if all levels pass. */
  method CheckEveryLevel(idx: Index) returns (r: Option<Error>)
    ensures r.None? <==> Passes(idx, RootLevel(idx))
  {
    hide ChainOk, Passes;
    var current := RootLevel(idx);
    while current.leftmost != P_NONE
      invariant Passes(idx, RootLevel(idx)) <==> Passes(idx, current)
      decreases if current.leftmost == P_NONE then 0 else current.level + 1
    {
      var next := CheckLevelFromLeftmost(idx, current);
      PassesStep(idx, current, if next.Ok? then next.value else current);
      if next.Err? { return Some(next.error); }
      current := next.value;
    }
    PassesNone(idx, current);
    return None;
  }
}
