/** Page splits of variable-length keys: both halves are cut to one shared length, which can lose values. */
module GistVarSplit {
  import opened Bytes
  import opened Common
  import opened GistVarKeys

  // ----- the split -----

  /** gbt_vsrt_cmp */
  function SortCmp(a: VarKey, b: VarKey): int {
    if Cmp(a.lower, b.lower) != 0 then Cmp(a.lower, b.lower) else Cmp(a.upper, b.upper)
  }

  /** An entry with its offset on the page (Vsrt). */
  datatype Entry = Entry(off: nat, key: VarKey)

  function Max(a: nat, b: nat): nat { if a > b then a else b }

  function KeysOf(es: seq<Entry>): (ks: seq<VarKey>)
    ensures |ks| == |es|
  {
    seq(|es|, i requires 0 <= i < |es| => es[i].key)
  }

  /** The side's key: its hull, cut to two bytes more than the longer of the two common prefixes. */
  function SideKey(side: seq<VarKey>, other: seq<VarKey>): VarKey
    requires |side| > 0 && |other| > 0
  {
    Truncate(Hull(side), SharedLength(side, other) + 1)
  }

  function SharedLength(side: seq<VarKey>, other: seq<VarKey>): nat
    requires |side| > 0 && |other| > 0
  {
    Max(CommonPrefix(Hull(side).lower, Hull(side).upper), CommonPrefix(Hull(other).lower, Hull(other).upper))
  }

  datatype Split = Split(left: seq<nat>, right: seq<nat>, ldatum: VarKey, rdatum: VarKey)

  function Offsets(es: seq<Entry>): (os: seq<nat>)
    ensures |os| == |es|
  {
    seq(|es|, i requires 0 <= i < |es| => es[i].off)
  }

  /** The hull so far; none of no keys. */
  function HullSoFar(ks: seq<VarKey>): Option<VarKey> { if |ks| == 0 then None else Some(Hull(ks)) }

  /** gbt_var_picksplit on entries that qsort has put in order: the lower half goes left, so every offset
      lands on exactly one side, neither side is empty, and each gets its hull cut to the shared length. */
  method VarPickSplit(sorted: seq<Entry>) returns (v: Split)
    requires |sorted| >= 2 && forall i, j | 0 <= i < j < |sorted| :: SortCmp(sorted[i].key, sorted[j].key) <= 0
    ensures |v.left| > 0 && |v.right| > 0 && v.left + v.right == Offsets(sorted)
    ensures var h := |sorted| / 2;
            var l, r := KeysOf(sorted[..h]), KeysOf(sorted[h..]);
            v.left == Offsets(sorted[..h]) && v.ldatum == SideKey(l, r) && v.rdatum == SideKey(r, l)
  {
    hide Hull, Cmp, SortCmp;
    var maxoff, half := |sorted|, |sorted| / 2;
    var left, right: seq<nat> := [], [];
    var ldatum, rdatum: Option<VarKey> := None, None;
    for i := 0 to maxoff
      invariant left == Offsets(sorted[..if i < half then i else half])
                && right == Offsets(sorted[half..if i < half then half else i])
      invariant ldatum == HullSoFar(KeysOf(sorted[..if i < half then i else half]))
      invariant rdatum == HullSoFar(KeysOf(sorted[half..if i < half then half else i]))
    {
      if i < half {
        HullPush(sorted[..i + 1], sorted[..i], sorted[i]);
        var d := BinUnion(ldatum, sorted[i].key);
        ldatum := Some(d);
        left := left + [sorted[i].off];
      } else {
        HullPush(sorted[half..i + 1], sorted[half..i], sorted[i]);
        var d := BinUnion(rdatum, sorted[i].key);
        rdatum := Some(d);
        right := right + [sorted[i].off];
      }
    }
    assert sorted[half..maxoff] == sorted[half..];
    assert left + right == Offsets(sorted);
    var ll := NodeCpLen(ldatum.value);
    var lr := NodeCpLen(rdatum.value);
    ll := Max(ll, lr) + 1;
    v := Split(left, right, Truncate(ldatum.value, ll), Truncate(rdatum.value, ll));
  }

  lemma HullPush(es: seq<Entry>, init: seq<Entry>, last: Entry)
    requires es == init + [last]
    ensures HullSoFar(KeysOf(es)) == Some(Widened(HullSoFar(KeysOf(init)), last.key))
    ensures Offsets(es) == Offsets(init) + [last.off]
  {
    assert KeysOf(es)[..|init|] == KeysOf(init);
  }

  // ----- what it loses -----

  /** Some value that a key of the side covers is not covered by the key the side gets. */
  ghost predicate Loses(side: seq<VarKey>, result: VarKey) {
    exists k, v :: k in side && Covers(k, v) && !Covers(result, v)
  }

  /** The bound of k is open, and the side's cut bound goes on after it with a byte that is not 255. */
  predicate CutPast(k: VarKey, u: bytes) {
    Open(k) && Prefix(k.upper, u) && exists j :: |k.upper| <= j < |u| && u[j] < 255
  }

  /** A key's bounds are in order, as unions, cuts and leaves make them. */
  predicate InOrder(k: VarKey) { Cmp(k.lower, k.upper) <= 0 }

  lemma {:induction false} CutMonotone(a: bytes, b: bytes, n: nat)
    requires Cmp(a, b) <= 0
    ensures Cmp(Cut(a, n), Cut(b, n)) <= 0
    decreases n
  {
    if n > 0 && |a| > 0 && |b| > 0 && a[0] == b[0] {
      CutMonotone(a[1..], b[1..], n - 1);
      assert Cut(a, n)[1..] == Cut(a[1..], n - 1) && Cut(b, n)[1..] == Cut(b[1..], n - 1);
    }
  }

  /** Unions and split sides of keys in order are in order, whatever length they are cut to. */
  lemma HullInOrder(ks: seq<VarKey>, n: nat)
    requires |ks| > 0 && forall k | k in ks :: InOrder(k)
    ensures InOrder(Truncate(Hull(ks), n))
  {
    hide Cmp, Hull, Cut;
    var h, k := Hull(ks), ks[0];
    HullBounds(ks);
    assert k in ks;
    CmpTrans(h.lower, k.lower, k.upper);
    CmpTrans(h.lower, k.upper, h.upper);
    CutMonotone(h.lower, h.upper, n + 1);
  }

  /** The value lost: the cut bound up to that byte, which is one more. */
  lemma LostValue(k: VarKey, l: bytes, u: bytes, j: nat)
    requires InOrder(k) && Open(k) && Prefix(k.upper, u) && |k.upper| <= j < |u| && u[j] < 255
    ensures Covers(k, u[..j] + [u[j] + 1]) && !Covers(VarKey(l, u), u[..j] + [u[j] + 1])
  {
    hide Cmp;
    var v := u[..j] + [u[j] + 1];
    assert v[..|k.upper|] == u[..|k.upper|] == k.upper;
    CmpPrefix(k.upper, v);
    CmpTrans(k.lower, k.upper, v);
    assert u[..j] == v[..j];
    CmpAt(u, v, j);
    CmpAnti(u, v);
    PrefixAt(u, v, j);
  }

  lemma PrefixAt(u: bytes, v: bytes, j: nat)
    requires j < |u|
    ensures Prefix(u, v) ==> v[j] == u[j]
  {
    if Prefix(u, v) { assert v[..|u|][j] == u[j]; }
  }

  /** Otherwise nothing is lost. */
  lemma NothingLost(side: seq<VarKey>, n: nat, k: VarKey, v: bytes)
    requires |side| > 0 && k in side && Covers(k, v)
    requires n >= CommonPrefix(Hull(side).lower, Hull(side).upper) + 2
    requires !CutPast(k, Cut(Hull(side).upper, n))
    ensures Covers(VarKey(Cut(Hull(side).lower, n), Cut(Hull(side).upper, n)), v)
  {
    hide Cmp, Hull, Cut;
    var h := Hull(side);
    HullBounds(side);
    CmpTrans(h.lower, k.lower, v);
    if Cmp(v, k.upper) <= 0 { CmpTrans(v, k.upper, h.upper); }
    if Cmp(v, h.upper) <= 0 {
      CutCoversRange(h, n, v);
    } else {
      BeyondHull(h, k, v);
      BeyondCut(h, k, n, v);
    }
  }

  lemma BeyondCut(h: VarKey, k: VarKey, n: nat, v: bytes)
    requires n >= CommonPrefix(h.lower, h.upper) + 2 && !CutPast(k, Cut(h.upper, n))
    requires Cmp(h.lower, v) <= 0 && Cmp(v, h.upper) > 0 && Behind(k, v) && Prefix(k.upper, h.upper)
    requires CommonPrefix(h.lower, h.upper) <= CommonPrefix(k.lower, k.upper)
    ensures Covers(VarKey(Cut(h.lower, n), Cut(h.upper, n)), v)
  {
    hide Cmp;
    var l, u := Cut(h.lower, n), Cut(h.upper, n);
    CutPrefix(h.lower, n);
    CutPrefix(h.upper, n);
    CmpTrans(l, h.lower, v);
    CutKeepsPrefix(h.lower, h.upper, n);
    if |u| <= |k.upper| {
      assert u == h.upper[..|k.upper|][..|u|] == v[..|k.upper|][..|u|] == v[..|u|];
    } else {
      assert u[..|k.upper|] == h.upper[..|k.upper|] == k.upper;
      TopBytes(u, v, |k.upper|);
    }
  }

  /** After a common start, bytes of 255 are the greatest: what they do not precede is not above them. */
  lemma TopBytes(u: bytes, v: bytes, n: nat)
    requires n <= |u| && n <= |v| && u[..n] == v[..n] && forall j | n <= j < |u| :: u[j] == 255
    ensures Cmp(v, u) <= 0 || (Prefix(u, v) && |u| < |v|)
  {
    hide Cmp;
    var c := CommonPrefix(u, v);
    CommonPrefixIs(u, v);
    forall i | 0 <= i < n ensures u[i] == v[i] { assert u[..n][i] == v[..n][i]; }
    if c == |u| {
      assert u[..c] == u;
      if c == |v| { assert v[..c] == v; CmpZero(v, u); }
    } else {
      CmpAt(v, u, c);
    }
  }

  /** A side's key stops covering something exactly if the side has a key with an open upper bound that
      the cut upper bound strictly extends by some byte below 255. */
  lemma SplitLosesIff(side: seq<VarKey>, other: seq<VarKey>)
    requires |side| > 0 && |other| > 0 && forall k | k in side :: InOrder(k)
    ensures var r := SideKey(side, other); Loses(side, r) <==> exists k :: k in side && CutPast(k, r.upper)
  {
    hide Cmp, Hull, Covers;
    var r := SideKey(side, other);
    if exists k :: k in side && CutPast(k, r.upper) {
      var k :| k in side && CutPast(k, r.upper);
      var j :| |k.upper| <= j < |r.upper| && r.upper[j] < 255;
      LostValue(k, r.lower, r.upper, j);
    } else {
      forall k, v | k in side && Covers(k, v) ensures Covers(r, v) {
        NothingLost(side, SharedLength(side, other) + 2, k, v);
      }
    }
  }

  // ----- what searches lose -----

  /** Some search skips the side although a value its keys stood for satisfies the operator. */
  ghost predicate SearchMisses(side: seq<VarKey>, result: VarKey) {
    exists k, v, q, s :: k in side && Covers(k, v) && Satisfies(v, s, q) && !Consistent(result, q, s, false)
  }

  /** The lost value is not found by looking for it, unless the lower bound is a prefix of the upper. */
  lemma LostSearch(k: VarKey, l: bytes, u: bytes, j: nat)
    requires InOrder(k) && Open(k) && Prefix(k.upper, u) && |k.upper| <= j < |u| && u[j] < 255
    requires Cmp(l, u) <= 0 && !Prefix(l, u)
    ensures var v := u[..j] + [u[j] + 1];
            Covers(k, v) && Satisfies(v, Equal, v) && !Consistent(VarKey(l, u), v, Equal, false)
  {
    hide Cmp;
    var v := u[..j] + [u[j] + 1];
    LostValue(k, l, u, j);
    assert u[..j] == v[..j];
    CmpAt(u, v, j);
    CmpAnti(u, v);
    PrefixAt(u, v, j);
    SharedPrefix(l, u, v, j);
    assert v[..|v|] == v;
    CmpAnti(l, u);
  }

  lemma SharedPrefix(l: bytes, u: bytes, v: bytes, j: nat)
    requires j <= |u| && j <= |v| && u[..j] == v[..j]
    ensures Prefix(l, v) && |l| <= j ==> Prefix(l, u)
  {
    if Prefix(l, v) && |l| <= j { assert u[..|l|] == u[..j][..|l|] == v[..j][..|l|] == v[..|l|]; }
  }

  /** A side key whose lower bound is a prefix of its upper one is consistent with every search for what
      the side's keys stood for, lost by it or not. */
  lemma PrefixKeyFinds(side: seq<VarKey>, n: nat, k: VarKey, v: bytes, q: bytes, s: Strategy)
    requires |side| > 0 && k in side && Covers(k, v) && Satisfies(v, s, q)
    requires n >= CommonPrefix(Hull(side).lower, Hull(side).upper) + 2
    requires Prefix(Cut(Hull(side).lower, n), Cut(Hull(side).upper, n))
    ensures Consistent(VarKey(Cut(Hull(side).lower, n), Cut(Hull(side).upper, n)), q, s, false)
  {
    hide Cmp, Hull, Cut, Consistent, Satisfies;
    var h := Hull(side);
    HullBounds(side);
    CmpTrans(h.lower, k.lower, v);
    if Cmp(v, k.upper) <= 0 { CmpTrans(v, k.upper, h.upper); }
    if Cmp(v, h.upper) <= 0 {
      CutCoversRange(h, n, v);
      NeverPrunes(VarKey(Cut(h.lower, n), Cut(h.upper, n)), v, q, s);
    } else {
      BeyondHull(h, k, v);
      PrefixOfBeyond(h, k, n, v);
      PrefixFinds(Cut(h.lower, n), Cut(h.upper, n), v, q, s);
    }
  }

  lemma PrefixOfBeyond(h: VarKey, k: VarKey, n: nat, v: bytes)
    requires n >= CommonPrefix(h.lower, h.upper) + 2 && Prefix(Cut(h.lower, n), Cut(h.upper, n))
    requires Behind(k, v) && Prefix(k.upper, h.upper)
    requires CommonPrefix(h.lower, h.upper) <= CommonPrefix(k.lower, k.upper)
    ensures Prefix(Cut(h.lower, n), v) && Cut(h.lower, n) != Cut(h.upper, n)
  {
    var l, u, c := Cut(h.lower, n), Cut(h.upper, n), CommonPrefix(h.lower, h.upper);
    CutKeepsPrefix(h.lower, h.upper, n);
    CommonPrefixUnique(l, u, |l|);
    assert |l| == c && |k.upper| >= c + 2;
    assert l == u[..c] == h.upper[..c] == h.upper[..|k.upper|][..c] == v[..|k.upper|][..c] == v[..c];
  }

  lemma PrefixFinds(l: bytes, u: bytes, v: bytes, q: bytes, s: Strategy)
    requires Prefix(l, v) && Prefix(l, u) && l != u && Satisfies(v, s, q)
    ensures Consistent(VarKey(l, u), q, s, false)
  {
    hide Cmp;
    CmpPrefix(l, v);
    CmpPrefix(l, u);
    CmpAnti(q, l);
    CmpAnti(q, v);
    CmpAnti(q, u);
    match s {
      case Less => CmpTrans(l, v, q);
      case LessEqual => CmpTrans(l, v, q);
      case Equal =>
      case NotEqual =>
        CmpZero(q, l);
        CmpZero(q, u);
      case _ =>
        if Cmp(q, u) > 0 {
          CmpTrans(l, u, q);
          Between(l, q, v);
        }
    }
  }

  /** Searches lose something through a side's key if and only if some open upper bound on the side is
      strictly extended by the cut upper bound with some byte below 255, and the cut lower bound is no
      prefix of the cut upper bound. */
  lemma SearchMissesIff(side: seq<VarKey>, other: seq<VarKey>)
    requires |side| > 0 && |other| > 0 && forall k | k in side :: InOrder(k)
    ensures var n := SharedLength(side, other) + 2;
            var l, u := Cut(Hull(side).lower, n), Cut(Hull(side).upper, n);
            SearchMisses(side, SideKey(side, other)) <==> (exists k :: k in side && CutPast(k, u)) && !Prefix(l, u)
  {
    hide Cmp, Hull, Cut, Covers, Consistent, Satisfies, CommonPrefix, InOrder, CutPast, Prefix;
    var n := SharedLength(side, other) + 2;
    var l, u := Cut(Hull(side).lower, n), Cut(Hull(side).upper, n);
    assert SideKey(side, other) == VarKey(l, u);
    if (exists k :: k in side && CutPast(k, u)) && !Prefix(l, u) {
      var k :| k in side && CutPast(k, u);
      HullInOrder(side, n - 1);
      CutPastMisses(side, k, l, u);
    }
    forall k, v, q, s | k in side && Covers(k, v) && Satisfies(v, s, q) && !Consistent(VarKey(l, u), q, s, false)
      ensures CutPast(k, u) && !Prefix(l, u)
    {
      MissNeedsCut(side, n, k, v, q, s);
    }
  }

  lemma CutPastMisses(side: seq<VarKey>, k: VarKey, l: bytes, u: bytes)
    requires k in side && InOrder(k) && CutPast(k, u) && !Prefix(l, u) && InOrder(VarKey(l, u))
    ensures SearchMisses(side, VarKey(l, u))
  {
    hide Cmp, Covers, Consistent, Satisfies, CommonPrefix, Prefix;
    var j :| |k.upper| <= j < |u| && u[j] < 255;
    LostSearch(k, l, u, j);
  }

  lemma MissNeedsCut(side: seq<VarKey>, n: nat, k: VarKey, v: bytes, q: bytes, s: Strategy)
    requires |side| > 0 && k in side && Covers(k, v) && Satisfies(v, s, q)
    requires n >= CommonPrefix(Hull(side).lower, Hull(side).upper) + 2
    ensures var l, u := Cut(Hull(side).lower, n), Cut(Hull(side).upper, n);
            Consistent(VarKey(l, u), q, s, false) || (CutPast(k, u) && !Prefix(l, u))
  {
    hide Cmp, Hull, Cut, Covers, Consistent, Satisfies, CommonPrefix, CutPast, Prefix;
    var l, u := Cut(Hull(side).lower, n), Cut(Hull(side).upper, n);
    if !CutPast(k, u) {
      NothingLost(side, n, k, v);
      NeverPrunes(VarKey(l, u), v, q, s);
    } else if Prefix(l, u) {
      PrefixKeyFinds(side, n, k, v, q, s);
    }
  }

  // ----- such a split -----

  /** The left half: "a".."cb" (open: it covers "cbz"), and "cba".."cbc". */
  const LEFT := [VarKey([97], [99, 98]), VarKey([99, 98, 97], [99, 98, 99])]

  /** The right half: two inner keys with equal bounds, which agree in five bytes: "zzzzz1" and
      "zzzzz2". */
  const RIGHT := [
    VarKey([122, 122, 122, 122, 122, 49], [122, 122, 122, 122, 122, 49]),
    VarKey([122, 122, 122, 122, 122, 50], [122, 122, 122, 122, 122, 50])]

  /** "cbz" is lost, although the union of the left half alone would keep it: a search for it skips the
      left half. */
  lemma SplitLosesExample()
    ensures var v: bytes := [99, 98, 122];
            && LEFT[0] in LEFT && Covers(LEFT[0], v) && !Covers(SideKey(LEFT, RIGHT), v) && Covers(UnionKey(LEFT), v)
            && !Consistent(SideKey(LEFT, RIGHT), v, Equal, false)
  {
    hide Cmp, Hull, Covers, Consistent, CommonPrefix;
    var v: bytes := [99, 98, 122];
    LeftHull();
    RightHull();
    assert SideKey(LEFT, RIGHT) == VarKey([97], [99, 98, 99]);
    FirstCovers();
    LeftKeySkips();
    UnionCovers(LEFT, LEFT[0], v);
  }

  lemma LeftKeySkips()
    ensures var k, v: bytes := VarKey([97], [99, 98, 99]), [99, 98, 122];
            !Covers(k, v) && !Consistent(k, v, Equal, false)
  {
    hide Cmp;
    var u: bytes, v: bytes := [99, 98, 99], [99, 98, 122];
    assert v[..2] == [99, 98] == u[..2];
    CmpAt(u, v, 2);
    CmpAnti(u, v);
    assert v[..3] == v && v[..1] == [99];
  }

  lemma FirstCovers()
    ensures Covers(VarKey([97], [99, 98]), [99, 98, 122])
  {
    assert Cmp([97], [99, 98, 122]) < 0;
    assert CommonPrefix([97], [99, 98]) == 0;
    assert [99, 98, 122][..2] == [99, 98];
  }

  lemma LeftHull()
    ensures Hull(LEFT) == VarKey([97], [99, 98, 99]) && CommonPrefix([97], [99, 98, 99]) == 0
  {
    assert LEFT[..1] == [LEFT[0]];
    assert Cmp([97], [99, 98, 97]) < 0;
    assert [99, 98][..2] == [99, 98] && [99, 98, 99][..2] == [99, 98];
    CmpAt([99, 98], [99, 98, 99], 2);
  }

  lemma RightHull()
    ensures var h := Hull(RIGHT); CommonPrefix(h.lower, h.upper) == 5
  {
    var a, b := RIGHT[0].lower, RIGHT[1].lower;
    assert RIGHT[..1] == [RIGHT[0]];
    assert a[..5] == b[..5];
    CmpAt(a, b, 5);
    CommonPrefixUnique(a, b, 5);
  }
}
