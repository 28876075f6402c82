/** B-tree pages as amcheck reads them, key comparison, and the invariant tests made of it. */
module BtreeKeys {
  import opened Common

  const P_NONE: nat := 0
  const P_HIKEY: nat := 1
  const MAX_ITEMS := 408 // MaxIndexTuplesPerPage

  /** An index tuple. Attribute values are given by their rank in their column's order (nulls and DESC
      included), heap TIDs by theirs. A tuple that is not a pivot always has a heap TID. */
  datatype Item = Item(pivot: bool, atts: seq<int>, heapTid: int, hasTid: bool, down: nat)

  /** BTreeTupleGetHeapTID */
  function TidOf(it: Item): Option<int> { if it.pivot && !it.hasTid then None else Some(it.heapTid) }

  /** A live page: flags, sibling links, level, and its items, the high key first if there is one. */
  datatype Page = Page(meta: bool, leaf: bool, root: bool, garbage: bool,
                  prev: nat, next: nat, level: nat, items: seq<Item>)

  predicate Rightmost(p: Page) { p.next == P_NONE }

  predicate Leftmost(p: Page) { p.prev == P_NONE }

  /** P_FIRSTDATAKEY */
  function FirstDataKey(p: Page): (o: nat)
    ensures 1 <= o <= 2
  {
    if Rightmost(p) then 1 else 2
  }

  /** PageGetMaxOffsetNumber; offsets count from 1. */
  function MaxOffset(p: Page): nat { |p.items| }

  function ItemAt(p: Page, off: nat): Item
    requires 1 <= off <= MaxOffset(p)
  {
    p.items[off - 1]
  }

  /** offset_is_negative_infinity */
  predicate IsNegativeInfinity(p: Page, off: nat) { !p.leaf && off == FirstDataKey(p) }

  // ----- keys -----

  /** An insertion scan key: the attributes it has, and the heap TID if it has one. */
  datatype Key = Key(atts: seq<int>, tid: Option<int>)

  function Min(a: nat, b: nat): nat { if a < b then a else b }

  /** bt_mkscankey_pivotsearch, in an index with n key attributes */
  function ScanKey(n: nat, it: Item): Key { Key(it.atts[..Min(n, |it.atts|)], TidOf(it)) }

  /** A heap TID comes after all attributes, so it is there only if they are. */
  predicate WellFormedKey(n: nat, k: Key) { |k.atts| <= n && (k.tid.Some? ==> |k.atts| == n) }

  /** The first difference between the first m attributes, from the i-th on. */
  function AttsCmp(a: seq<int>, b: seq<int>, i: nat, m: nat): int
    requires i <= m <= |a| && m <= |b|
    decreases m - i
  {
    if i == m then 0 else if a[i] != b[i] then a[i] - b[i] else AttsCmp(a, b, i + 1, m)
  }

  /** _bt_compare for a pivot search in a heapkeyspace index */
  function BtCompare(k: Key, p: Page, off: nat): int
    requires 1 <= off <= MaxOffset(p)
  {
    if IsNegativeInfinity(p, off) then 1 else
    var it := ItemAt(p, off);
    var ncmpkey := Min(|it.atts|, |k.atts|);
    var c := AttsCmp(k.atts, it.atts, 0, ncmpkey);
    if c != 0 then c
    else if |k.atts| > |it.atts| then 1
    else if k.tid.None? then 0
    else if TidOf(it).None? then 1
    else k.tid.value - TidOf(it).value
  }

  // ----- the order on keys with minus infinity for what is missing -----

  function TidCmp(a: Option<int>, b: Option<int>): int {
    if a.None? then (if b.None? then 0 else -1) else if b.None? then 1 else a.value - b.value
  }

  /** Attribute by attribute, a missing one below all others, then the heap TID, likewise. */
  function PadCmp(a: Key, b: Key, i: nat): int
    requires i <= |a.atts| && i <= |b.atts|
    decreases |a.atts| - i
  {
    if i == |a.atts| then (if i == |b.atts| then TidCmp(a.tid, b.tid) else -1)
    else if i == |b.atts| then 1
    else if a.atts[i] != b.atts[i] then a.atts[i] - b.atts[i]
    else PadCmp(a, b, i + 1)
  }

  predicate Less(a: Key, b: Key) { PadCmp(a, b, 0) < 0 }

  predicate AtMost(a: Key, b: Key) { PadCmp(a, b, 0) <= 0 }

  lemma {:induction false} PadAnti(a: Key, b: Key, i: nat)
    requires i <= |a.atts| && i <= |b.atts|
    ensures PadCmp(a, b, i) == -PadCmp(b, a, i)
    decreases |a.atts| - i
  {
    if i < |a.atts| && i < |b.atts| && a.atts[i] == b.atts[i] { PadAnti(a, b, i + 1); }
  }

  lemma {:induction false} PadTrans(a: Key, b: Key, c: Key, i: nat)
    requires i <= |a.atts| && i <= |b.atts| && i <= |c.atts|
    requires PadCmp(a, b, i) <= 0 && PadCmp(b, c, i) <= 0
    ensures PadCmp(a, c, i) <= 0
    ensures PadCmp(a, b, i) < 0 || PadCmp(b, c, i) < 0 ==> PadCmp(a, c, i) < 0
    decreases |a.atts| - i
  {
    if i < |a.atts| && i < |b.atts| && i < |c.atts| && a.atts[i] == b.atts[i] == c.atts[i] { PadTrans(a, b, c, i + 1); }
  }

  /** The padded order is total on keys. */
  lemma {:induction false} PadEqual(a: Key, b: Key, i: nat)
    requires i <= |a.atts| && i <= |b.atts| && a.atts[..i] == b.atts[..i]
    ensures PadCmp(a, b, i) == 0 <==> a == b
    decreases |a.atts| - i
  {
    if i < |a.atts| && i < |b.atts| && a.atts[i] == b.atts[i] {
      assert a.atts[..i + 1] == a.atts[..i] + [a.atts[i]] && b.atts[..i + 1] == b.atts[..i] + [b.atts[i]];
      PadEqual(a, b, i + 1);
    } else if i == |a.atts| == |b.atts| {
      assert a.atts[..i] == a.atts && b.atts[..i] == b.atts;
    }
  }

  /** The keys agree in their first i attributes, and there a goes below b: it has the smaller attribute, or
      ends where b goes on or has the greater heap TID. A missing heap TID is below any. */
  predicate BelowAt(a: Key, b: Key, i: nat) {
    && i <= |a.atts| && i <= |b.atts| && a.atts[..i] == b.atts[..i]
    && if i < |a.atts| then i < |b.atts| && a.atts[i] < b.atts[i]
       else i < |b.atts| || (b.tid.Some? && (a.tid.None? || a.tid.value < b.tid.value))
  }

  lemma {:induction false} PadBelowIff(a: Key, b: Key, i: nat)
    requires i <= |a.atts| && i <= |b.atts| && a.atts[..i] == b.atts[..i]
    ensures PadCmp(a, b, i) < 0 <==> exists k: nat :: i <= k && BelowAt(a, b, k)
    decreases |a.atts| - i
  {
    if i < |a.atts| && i < |b.atts| && a.atts[i] == b.atts[i] {
      assert a.atts[..i + 1] == a.atts[..i] + [a.atts[i]] && b.atts[..i + 1] == b.atts[..i] + [b.atts[i]];
      PadBelowIff(a, b, i + 1);
    } else {
      assert PadCmp(a, b, i) < 0 <==> BelowAt(a, b, i);
      forall k: nat | i < k ensures !BelowAt(a, b, k) { AgreeAt(a, b, i, k); }
    }
  }

  lemma AgreeAt(a: Key, b: Key, i: nat, k: nat)
    requires i < k
    ensures BelowAt(a, b, k) ==> i < |a.atts| && i < |b.atts| && a.atts[i] == b.atts[i]
  {
    if BelowAt(a, b, k) { assert a.atts[i] == a.atts[..k][i] == b.atts[..k][i]; }
  }

  /** The order in full: the first difference decides. */
  lemma LessIff(a: Key, b: Key)
    ensures Less(a, b) <==> exists i: nat :: BelowAt(a, b, i)
    ensures AtMost(a, b) <==> Less(a, b) || a == b
  {
    PadBelowIff(a, b, 0);
    PadEqual(a, b, 0);
  }

  /** Irreflexive and transitive: what the checks establish pairwise holds across any distance. */
  lemma LessTrans(a: Key, b: Key, c: Key)
    requires Less(a, b) && Less(b, c)
    ensures Less(a, c)
  {
    PadTrans(a, b, c, 0);
  }

  // ----- the tests -----

  datatype Verdict = Holds | Fails | LacksTid

  /** The step after a comparison that found no difference: a scan key that ends first is below. */
  function BelowAfterTie(n: nat, k: Key, p: Page, off: nat): Verdict
    requires 1 <= off <= MaxOffset(p)
  {
    var it := ItemAt(p, off);
    var nonpivot := p.leaf && off >= FirstDataKey(p);
    var uppnkeyatts := Min(n, |it.atts|);
    if TidOf(it).None? && nonpivot then LacksTid
    else if |k.atts| == uppnkeyatts then (if k.tid.None? && TidOf(it).Some? then Holds else Fails)
    else if |k.atts| < uppnkeyatts then Holds else Fails
  }

  /** invariant_l_offset and invariant_l_nontarget_offset */
  function InvariantL(n: nat, k: Key, p: Page, off: nat): Verdict
    requires 1 <= off <= MaxOffset(p)
  {
    var cmp := BtCompare(k, p, off);
    if cmp == 0 then BelowAfterTie(n, k, p, off) else if cmp < 0 then Holds else Fails
  }

  /** invariant_leq_offset */
  predicate InvariantLeq(k: Key, p: Page, off: nat)
    requires 1 <= off <= MaxOffset(p)
  {
    BtCompare(k, p, off) <= 0
  }

  /** invariant_g_offset */
  predicate InvariantG(k: Key, p: Page, off: nat)
    requires 1 <= off <= MaxOffset(p)
  {
    BtCompare(k, p, off) > 0
  }

  /** Comparing attributes is comparing padded keys, up to where one of them ends. */
  lemma {:induction false} AttsPad(a: Key, b: Key, full: seq<int>, i: nat, m: nat)
    requires i <= m && m == Min(|full|, |a.atts|) && |b.atts| <= |full| && b.atts == full[..|b.atts|] && m <= |b.atts|
    ensures var c := AttsCmp(a.atts, full, i, m); PadCmp(a, b, i) == if c != 0 then c else PadCmp(a, b, m)
    decreases m - i
  {
    if i < m && a.atts[i] == full[i] { AttsPad(a, b, full, i + 1, m); }
  }

  /** What a comparison with an item that is not minus infinity says about the padded keys. */
  lemma CompareMeans(n: nat, k: Key, p: Page, off: nat)
    requires 1 <= off <= MaxOffset(p) && !IsNegativeInfinity(p, off) && WellFormedKey(n, k)
    ensures var c, d := BtCompare(k, p, off), PadCmp(k, ScanKey(n, ItemAt(p, off)), 0);
            && (c > 0 <==> d > 0) && (c < 0 ==> d < 0)
            && (c == 0 && k.tid.None? ==>
                  |k.atts| <= |ItemAt(p, off).atts| && d == PadCmp(k, ScanKey(n, ItemAt(p, off)), |k.atts|))
            && (c == 0 && k.tid.Some? ==> d == 0)
  {
    var it := ItemAt(p, off);
    AttsPad(k, ScanKey(n, it), it.atts, 0, Min(|it.atts|, |k.atts|));
  }

  /** The three tests decide the strict and the weak padded order. */
  lemma TestsMean(n: nat, k: Key, p: Page, off: nat)
    requires 1 <= off <= MaxOffset(p) && !IsNegativeInfinity(p, off) && WellFormedKey(n, k)
    ensures var b := ScanKey(n, ItemAt(p, off));
            && (InvariantG(k, p, off) <==> Less(b, k))
            && (InvariantLeq(k, p, off) <==> AtMost(k, b))
            && (InvariantL(n, k, p, off) == Holds ==> Less(k, b))
            && (Less(k, b) ==> InvariantL(n, k, p, off) != Fails)
  {
    CompareMeans(n, k, p, off);
    PadAnti(k, ScanKey(n, ItemAt(p, off)), 0);
  }
}
