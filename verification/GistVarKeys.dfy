/** btree_gist keys of variable length (bytea): ranges whose bounds are cut to a prefix, their unions,
    and the searches that must not prune what a range stands for. */
module GistVarKeys {
  import opened Bytes
  import opened Common

  /** GBT_VARKEY: a lower and an upper bound, the same for a leaf key. */
  datatype VarKey = VarKey(lower: bytes, upper: bytes)

  // ----- common prefixes -----

  /** The length of the longest common prefix. */
  function CommonPrefix(a: bytes, b: bytes): (c: nat)
    ensures c <= |a| && c <= |b|
    decreases |a|
  {
    if |a| > 0 && |b| > 0 && a[0] == b[0] then 1 + CommonPrefix(a[1..], b[1..]) else 0
  }

  lemma {:induction false} CommonPrefixIs(a: bytes, b: bytes)
    ensures var c := CommonPrefix(a, b); a[..c] == b[..c] && (c < |a| && c < |b| ==> a[c] != b[c])
    decreases |a|
  {
    var c := CommonPrefix(a, b);
    if |a| > 0 && |b| > 0 && a[0] == b[0] {
      CommonPrefixIs(a[1..], b[1..]);
      assert a[..c] == [a[0]] + a[1..][..c - 1] && b[..c] == [b[0]] + b[1..][..c - 1];
    }
  }

  /** Agreement up to c, and either an end or a difference there, make c the common prefix. */
  lemma CommonPrefixUnique(a: bytes, b: bytes, c: nat)
    requires c <= |a| && c <= |b| && a[..c] == b[..c] && (c < |a| && c < |b| ==> a[c] != b[c])
    ensures CommonPrefix(a, b) == c
  {
    var d := CommonPrefix(a, b);
    CommonPrefixIs(a, b);
    forall i | 0 <= i < c ensures a[i] == b[i] { assert a[..c][i] == b[..c][i]; }
    forall i | 0 <= i < d ensures a[i] == b[i] { assert a[..d][i] == b[..d][i]; }
  }

  /** gbt_var_node_cp_len for single-byte data */
  method NodeCpLen(node: VarKey) returns (l: nat)
    ensures l == CommonPrefix(node.lower, node.upper)
  {
    var p1, p2 := node.lower, node.upper;
    var ml := if |p1| < |p2| then |p1| else |p2|;
    if ml == 0 { return 0; }
    var i := 0;
    while i < ml
      invariant i <= ml && p1[..i] == p2[..i]
    {
      if p1[i] != p2[i] {
        CommonPrefixUnique(p1, p2, i);
        return i;
      }
      assert p1[..i + 1] == p1[..i] + [p1[i]] && p2[..i + 1] == p2[..i] + [p2[i]];
      i := i + 1;
    }
    CommonPrefixUnique(p1, p2, ml);
    return ml;
  }

  // ----- order and prefixes -----

  function Cut(s: bytes, n: nat): bytes { if |s| < n then s else s[..n] }

  lemma CutPrefix(s: bytes, n: nat)
    ensures Prefix(Cut(s, n), s) && Cmp(Cut(s, n), s) <= 0
  {
    assert s[..|s|] == s;
    CmpPrefix(Cut(s, n), s);
  }

  /** What two strings agree on does not matter for their order. */
  lemma {:induction false} CmpSkip(a: bytes, b: bytes, c: nat)
    requires c <= |a| && c <= |b| && a[..c] == b[..c]
    ensures Cmp(a, b) == Cmp(a[c..], b[c..])
    decreases c
  {
    if c > 0 {
      assert a[0] == a[..c][0] == b[..c][0] == b[0];
      assert a[1..][..c - 1] == a[..c][1..] == b[1..][..c - 1];
      CmpSkip(a[1..], b[1..], c - 1);
      assert a[1..][c - 1..] == a[c..] && b[1..][c - 1..] == b[c..];
    } else {
      assert a[0..] == a && b[0..] == b;
    }
  }

  /** The first difference decides. */
  lemma CmpAt(a: bytes, b: bytes, c: nat)
    requires c <= |a| && c < |b| && a[..c] == b[..c] && (c < |a| ==> a[c] != b[c])
    ensures Cmp(a, b) < 0 <==> c == |a| || a[c] < b[c]
    ensures Cmp(a, b) != 0
  {
    CmpSkip(a, b, c);
    if c < |a| { assert a[c..][0] == a[c]; }
    assert b[c..][0] == b[c];
  }

  /** What lies between a prefix and its extension has that prefix too. */
  lemma Between(p: bytes, v: bytes, u: bytes)
    requires Prefix(p, u) && Cmp(p, v) <= 0 && Cmp(v, u) <= 0
    ensures Prefix(p, v)
  {
    var c := CommonPrefix(p, v);
    CommonPrefixIs(p, v);
    if c < |p| {
      assert v[..c] == p[..c] == u[..|p|][..c] == u[..c] && u[c] == u[..|p|][c] == p[c];
      if c < |v| { CmpAt(p, v, c); CmpAnti(p, v); }
      CmpAt(v, u, c);
      CmpAnti(p, v);
      if c == |v| { CmpAt(v, p, c); }
    } else {
      assert p == v[..|p|];
    }
  }

  // ----- what a key stands for -----

  /** v is in the range, or lies behind an upper bound that has been cut: a proper prefix of v at least
      two bytes longer than what the bounds have in common. */
  predicate Covers(k: VarKey, v: bytes) { Cmp(k.lower, v) <= 0 && (Cmp(v, k.upper) <= 0 || Behind(k, v)) }

  /** The upper bound is open: it may have been cut. */
  predicate Open(k: VarKey) { |k.upper| >= CommonPrefix(k.lower, k.upper) + 2 }

  predicate Behind(k: VarKey, v: bytes) { Open(k) && |k.upper| < |v| && Prefix(k.upper, v) }

  lemma LeafCovers(v: bytes)
    ensures Covers(VarKey(v, v), v) && forall w :: Covers(VarKey(v, v), w) ==> w == v
  {
    CmpZero(v, v);
    CommonPrefixUnique(v, v, |v|);
    forall w | Covers(VarKey(v, v), w) ensures w == v {
      CmpAnti(v, w);
      CmpZero(v, w);
    }
  }

  // ----- union -----

  function Lower(a: bytes, b: bytes): bytes { if Cmp(a, b) > 0 then b else a }

  function Upper(a: bytes, b: bytes): bytes { if Cmp(a, b) < 0 then b else a }

  /** The smallest lower and the greatest upper bound. */
  function Hull(ks: seq<VarKey>): VarKey
    requires |ks| > 0
  {
    if |ks| == 1 then ks[0] else
    var h, k := Hull(ks[..|ks| - 1]), ks[|ks| - 1];
    VarKey(Lower(h.lower, k.lower), Upper(h.upper, k.upper))
  }

  lemma {:induction false} HullBounds(ks: seq<VarKey>)
    requires |ks| > 0
    ensures forall k | k in ks :: Cmp(Hull(ks).lower, k.lower) <= 0 && Cmp(k.upper, Hull(ks).upper) <= 0
    decreases |ks|
  {
    hide Cmp;
    if |ks| == 1 {
      CmpZero(ks[0].lower, ks[0].lower);
      CmpZero(ks[0].upper, ks[0].upper);
    } else {
      var init, last := ks[..|ks| - 1], ks[|ks| - 1];
      HullBounds(init);
      var h := Hull(init);
      forall k | k in ks ensures Cmp(Hull(ks).lower, k.lower) <= 0 && Cmp(k.upper, Hull(ks).upper) <= 0 {
        assert ks == init + [last];
        HullStep(h, last, k);
      }
    }
  }

  lemma HullStep(h: VarKey, last: VarKey, k: VarKey)
    requires k == last || (Cmp(h.lower, k.lower) <= 0 && Cmp(k.upper, h.upper) <= 0)
    ensures Cmp(Lower(h.lower, last.lower), k.lower) <= 0 && Cmp(k.upper, Upper(h.upper, last.upper)) <= 0
  {
    hide Cmp;
    CmpZero(last.lower, last.lower);
    CmpZero(last.upper, last.upper);
    CmpAnti(h.lower, last.lower);
    CmpAnti(h.upper, last.upper);
    if k != last {
      if Cmp(h.lower, last.lower) > 0 { CmpTrans(last.lower, h.lower, k.lower); }
      if Cmp(h.upper, last.upper) < 0 { CmpTrans(k.upper, h.upper, last.upper); }
    }
  }

  /** gbt_var_node_truncate: both bounds cut to cpf_length + 1 bytes. */
  function Truncate(k: VarKey, cpfLength: nat): VarKey {
    VarKey(Cut(k.lower, cpfLength + 1), Cut(k.upper, cpfLength + 1))
  }

  /** The key gbt_var_union makes: the hull, cut to two bytes more than the common prefix. */
  function UnionKey(ks: seq<VarKey>): VarKey
    requires |ks| > 0
  {
    Truncate(Hull(ks), CommonPrefix(Hull(ks).lower, Hull(ks).upper) + 1)
  }

  /** The key after taking in another one; none before the first. */
  function Widened(u: Option<VarKey>, e: VarKey): VarKey {
    if u.None? then e else VarKey(Lower(u.value.lower, e.lower), Upper(u.value.upper, e.upper))
  }

  /** gbt_var_bin_union */
  method BinUnion(u: Option<VarKey>, e: VarKey) returns (r: VarKey)
    ensures r == Widened(u, e)
  {
    if u.None? { return e; }
    var nr, update := u.value, false;
    if Cmp(u.value.lower, e.lower) > 0 {
      nr, update := nr.(lower := e.lower), true;
    }
    if Cmp(u.value.upper, e.upper) < 0 {
      nr, update := nr.(upper := e.upper), true;
    }
    r := if update then nr else u.value;
  }

  /** gbt_var_union */
  method VarUnion(entries: seq<VarKey>) returns (out: VarKey)
    requires |entries| > 0
    ensures out == UnionKey(entries)
  {
    out := entries[0];
    assert entries[..1] == [entries[0]];
    for i := 1 to |entries|
      invariant out == Hull(entries[..i])
    {
      assert entries[..i + 1][..i] == entries[..i];
      out := BinUnion(Some(out), entries[i]);
    }
    assert entries[..|entries|] == entries;
    var plen := NodeCpLen(out);
    out := Truncate(out, plen + 1);
  }

  /** Cutting beyond the common prefix keeps it. */
  lemma CutKeepsPrefix(l: bytes, u: bytes, n: nat)
    requires n > CommonPrefix(l, u)
    ensures CommonPrefix(Cut(l, n), Cut(u, n)) == CommonPrefix(l, u)
  {
    var c := CommonPrefix(l, u);
    CommonPrefixIs(l, u);
    assert Cut(l, n)[..c] == l[..c] && Cut(u, n)[..c] == u[..c];
    CommonPrefixUnique(Cut(l, n), Cut(u, n), c);
  }

  /** A value up to the hull's upper bound stays covered when the bounds are cut anywhere past their
      common prefix and one byte more. */
  lemma CutCoversRange(h: VarKey, n: nat, v: bytes)
    requires n >= CommonPrefix(h.lower, h.upper) + 2 && Cmp(h.lower, v) <= 0 && Cmp(v, h.upper) <= 0
    ensures Covers(VarKey(Cut(h.lower, n), Cut(h.upper, n)), v)
  {
    hide Cmp;
    var l, u := Cut(h.lower, n), Cut(h.upper, n);
    CutPrefix(h.lower, n);
    CutPrefix(h.upper, n);
    CmpTrans(l, h.lower, v);
    CutKeepsPrefix(h.lower, h.upper, n);
    if Cmp(v, u) > 0 {
      CmpAnti(v, u);
      Between(u, v, h.upper);
      ProperPrefix(u, v);
    }
  }

  lemma ProperPrefix(u: bytes, v: bytes)
    requires Prefix(u, v) && Cmp(v, u) != 0
    ensures |u| < |v|
  {
    if |u| == |v| {
      assert v[..|u|] == v;
      CmpZero(v, u);
    }
  }

  /** Behind the open bound of a part, beyond the hull: the hull's bound extends the part's, and has no
      more in common with the hull's lower bound than the part's bounds with each other. */
  lemma BeyondHull(h: VarKey, k: VarKey, v: bytes)
    requires Cmp(h.lower, k.lower) <= 0 && Cmp(k.upper, h.upper) <= 0
    requires Cmp(k.lower, v) <= 0 && Behind(k, v) && Cmp(v, h.upper) > 0
    ensures Prefix(k.upper, h.upper) && CommonPrefix(h.lower, h.upper) <= CommonPrefix(k.lower, k.upper)
  {
    hide Cmp;
    CmpAnti(v, h.upper);
    Between(k.upper, h.upper, v);
    var c := CommonPrefix(k.lower, k.upper);
    CommonPrefixIs(k.lower, k.upper);
    CommonPrefixIs(h.lower, h.upper);
    var d := CommonPrefix(h.lower, h.upper);
    if d > c {
      // the hull's lower bound goes on like the part's upper bound where the part's lower bound is less
      assert v[..|k.upper|] == k.upper == h.upper[..|k.upper|];
      assert h.lower[..c] == h.lower[..d][..c] == h.upper[..d][..c] == h.upper[..c] == k.upper[..c] == k.lower[..c];
      assert h.lower[c] == h.lower[..d][c] == h.upper[..d][c] == h.upper[c] == k.upper[c];
      assert v[..c] == v[..|k.upper|][..c] && v[c] == v[..|k.upper|][c];
      CmpAt(k.lower, v, c);
      CmpAt(k.lower, h.lower, c);
      CmpAnti(k.lower, h.lower);
    }
  }

  /** Truncated unions lose nothing: what any of the keys covers is covered by their union. */
  lemma UnionCovers(ks: seq<VarKey>, k: VarKey, v: bytes)
    requires k in ks && Covers(k, v)
    ensures Covers(UnionKey(ks), v)
  {
    hide Cmp, Hull;
    var h := Hull(ks);
    var c := CommonPrefix(h.lower, h.upper);
    HullBounds(ks);
    CmpTrans(h.lower, k.lower, v);
    if Cmp(v, k.upper) <= 0 { CmpTrans(v, k.upper, h.upper); }
    if Cmp(v, h.upper) <= 0 {
      CutCoversRange(h, c + 2, v);
    } else {
      BeyondHull(h, k, v);
      var l, u := Cut(h.lower, c + 2), Cut(h.upper, c + 2);
      CutPrefix(h.lower, c + 2);
      CmpTrans(l, h.lower, v);
      CutKeepsPrefix(h.lower, h.upper, c + 2);
      assert u == h.upper[..|k.upper|][..c + 2] == v[..|k.upper|][..c + 2] == v[..c + 2];
    }
  }

  lemma {:induction false} HullFromParts(ks: seq<VarKey>)
    requires |ks| > 0
    ensures exists i, j :: 0 <= i < |ks| && 0 <= j < |ks| && Hull(ks) == VarKey(ks[i].lower, ks[j].upper)
    decreases |ks|
  {
    hide Cmp;
    var n := |ks| - 1;
    if n == 0 {
      assert Hull(ks) == VarKey(ks[0].lower, ks[0].upper);
    } else {
      HullFromParts(ks[..n]);
      var i, j :| 0 <= i < n && 0 <= j < n && Hull(ks[..n]) == VarKey(ks[..n][i].lower, ks[..n][j].upper);
      var i' := if Cmp(ks[i].lower, ks[n].lower) > 0 then n else i;
      var j' := if Cmp(ks[j].upper, ks[n].upper) < 0 then n else j;
      assert Hull(ks) == VarKey(ks[i'].lower, ks[j'].upper);
    }
  }

  /** s without what comes after its first n bytes. */
  predicate IsCut(c: bytes, s: bytes, n: nat) { Prefix(c, s) && |c| == if |s| < n then |s| else n }

  /** Entry i has the smallest lower and entry j the greatest upper bound, and the key has both, each cut
      to two bytes more than they have in common. */
  ghost predicate UnionOf(u: VarKey, ks: seq<VarKey>, i: nat, j: nat, c: nat) {
    && i < |ks| && j < |ks| && c <= |ks[i].lower| && c <= |ks[j].upper|
    && (forall k | k in ks :: Cmp(ks[i].lower, k.lower) <= 0 && Cmp(k.upper, ks[j].upper) <= 0)
    && ks[i].lower[..c] == ks[j].upper[..c]
    && (c < |ks[i].lower| && c < |ks[j].upper| ==> ks[i].lower[c] != ks[j].upper[c])
    && IsCut(u.lower, ks[i].lower, c + 2) && IsCut(u.upper, ks[j].upper, c + 2)
  }

  /** The union in full: it neither widens the bounds nor cuts them anywhere else. */
  lemma UnionIs(ks: seq<VarKey>) returns (i: nat, j: nat, c: nat)
    requires |ks| > 0
    ensures UnionOf(UnionKey(ks), ks, i, j, c)
  {
    hide Cmp;
    HullBounds(ks);
    HullFromParts(ks);
    i, j :| 0 <= i < |ks| && 0 <= j < |ks| && Hull(ks) == VarKey(ks[i].lower, ks[j].upper);
    c := CommonPrefix(ks[i].lower, ks[j].upper);
    CommonPrefixIs(ks[i].lower, ks[j].upper);
    CutPrefix(ks[i].lower, c + 2);
    CutPrefix(ks[j].upper, c + 2);
  }

  // ----- consistent -----

  datatype Strategy = Less | LessEqual | Equal | GreaterEqual | Greater | NotEqual

  /** The operator itself, the indexed value on the left. */
  predicate Satisfies(v: bytes, s: Strategy, q: bytes) {
    match s
    case Less => Cmp(v, q) < 0
    case LessEqual => Cmp(v, q) <= 0
    case Equal => v == q
    case GreaterEqual => Cmp(v, q) >= 0
    case Greater => Cmp(v, q) > 0
    case NotEqual => v != q
  }

  /** gbt_bytea_pf_match */
  predicate PfMatch(pf: bytes, query: bytes) { |pf| <= |query| && query[..|pf|] == pf }

  predicate NodePfMatch(k: VarKey, query: bytes) { PfMatch(k.lower, query) || PfMatch(k.upper, query) }

  /** gbt_var_consistent */
  predicate Consistent(k: VarKey, q: bytes, s: Strategy, isLeaf: bool) {
    match s
    case LessEqual => if isLeaf then Cmp(q, k.lower) >= 0 else Cmp(q, k.lower) >= 0 || NodePfMatch(k, q)
    case Less => if isLeaf then Cmp(q, k.lower) > 0 else Cmp(q, k.lower) >= 0 || NodePfMatch(k, q)
    case Equal => if isLeaf then Cmp(q, k.lower) == 0
                  else (Cmp(k.lower, q) <= 0 && Cmp(q, k.upper) <= 0) || NodePfMatch(k, q)
    case Greater => if isLeaf then Cmp(q, k.upper) < 0 else Cmp(q, k.upper) <= 0 || NodePfMatch(k, q)
    case GreaterEqual => if isLeaf then Cmp(q, k.upper) <= 0 else Cmp(q, k.upper) <= 0 || NodePfMatch(k, q)
    case NotEqual => !(Cmp(q, k.lower) == 0 && Cmp(q, k.upper) == 0)
  }

  /** On a leaf key the test is the operator. */
  lemma LeafExact(v: bytes, q: bytes, s: Strategy)
    ensures Consistent(VarKey(v, v), q, s, true) <==> Satisfies(v, s, q)
  {
    CmpAnti(v, q);
    CmpZero(q, v);
  }

  /** No search prunes a key that covers a value satisfying the operator. */
  lemma NeverPrunes(k: VarKey, v: bytes, q: bytes, s: Strategy)
    requires Covers(k, v) && Satisfies(v, s, q)
    ensures Consistent(k, q, s, false)
  {
    hide Cmp;
    CmpAnti(q, k.lower);
    CmpAnti(v, q);
    CmpZero(v, q);
    match s {
      case Less => CmpTrans(k.lower, v, q);
      case LessEqual => CmpTrans(k.lower, v, q);
      case NotEqual => PointKey(k, v, q);
      case _ => UpperSide(k, v, q);
    }
  }

  /** What searches skip: for a key whose bounds are in order, exactly the queries below its lower bound,
      or above its upper bound without continuing either bound, as the operator has it; and for <> those
      equal to both bounds. */
  lemma PrunesIff(k: VarKey, q: bytes, s: Strategy)
    requires Cmp(k.lower, k.upper) <= 0
    ensures var below := Cmp(q, k.lower) < 0;
            var beyond := Cmp(q, k.upper) > 0 && !Prefix(k.lower, q) && !Prefix(k.upper, q);
            !Consistent(k, q, s, false) <==>
            match s
            case Less => below
            case LessEqual => below
            case Equal => below || beyond
            case GreaterEqual => beyond
            case Greater => beyond
            case NotEqual => q == k.lower == k.upper
  {
    hide Cmp;
    CmpAnti(q, k.lower);
    CmpAnti(q, k.upper);
    CmpZero(q, k.lower);
    CmpZero(q, k.upper);
    if Prefix(k.lower, q) { CmpPrefix(k.lower, q); }
    if Prefix(k.upper, q) {
      CmpPrefix(k.upper, q);
      CmpTrans(k.lower, k.upper, q);
    }
  }

  /** A query not above a covered value: up to the upper bound, or it has that bound as a prefix. */
  lemma UpperSide(k: VarKey, v: bytes, q: bytes)
    requires Covers(k, v) && Cmp(q, v) <= 0
    ensures Cmp(q, k.upper) <= 0 || PfMatch(k.upper, q)
  {
    hide Cmp;
    if Cmp(v, k.upper) <= 0 {
      CmpTrans(q, v, k.upper);
    } else if Cmp(q, k.upper) > 0 {
      CmpAnti(q, k.upper);
      Between(k.upper, q, v);
    }
  }

  /** A key with equal bounds covers only that value. */
  lemma PointKey(k: VarKey, v: bytes, q: bytes)
    requires Covers(k, v) && v != q
    ensures !(Cmp(q, k.lower) == 0 && Cmp(q, k.upper) == 0)
  {
    hide Cmp;
    CmpZero(q, k.lower);
    CmpZero(q, k.upper);
    if k.lower == k.upper { LeafCovers(k.lower); assert k == VarKey(k.lower, k.lower); }
  }

  // ----- searches of a tree -----

  /** How a key came about: given, or by a union. An entry's key is recomputed as the union of its own
      key and that of what was inserted below, so unions nest. */
  datatype Origin = Given(key: VarKey) | Union(first: Origin, rest: seq<Origin>)

  function KeyOf(o: Origin): VarKey {
    match o
    case Given(k) => k
    case Union(f, rest) => UnionKey([KeyOf(f)] + seq(|rest|, i requires 0 <= i < |rest| => KeyOf(rest[i])))
  }

  predicate GoesInto(k: VarKey, o: Origin) {
    match o
    case Given(g) => g == k
    case Union(f, rest) => GoesInto(k, f) || exists i :: 0 <= i < |rest| && GoesInto(k, rest[i])
  }

  /** Nested unions lose nothing either. */
  lemma {:induction false} OriginCovers(o: Origin, k: VarKey, v: bytes)
    requires GoesInto(k, o) && Covers(k, v)
    ensures Covers(KeyOf(o), v)
    decreases o
  {
    hide Covers, UnionKey;
    if o.Union? {
      var ks := [KeyOf(o.first)] + seq(|o.rest|, i requires 0 <= i < |o.rest| => KeyOf(o.rest[i]));
      if GoesInto(k, o.first) {
        OriginCovers(o.first, k, v);
        UnionCovers(ks, ks[0], v);
      } else {
        var i :| 0 <= i < |o.rest| && GoesInto(k, o.rest[i]);
        OriginCovers(o.rest[i], k, v);
        assert ks[i + 1] == KeyOf(o.rest[i]);
        UnionCovers(ks, ks[i + 1], v);
      }
    }
  }

  datatype Tree = Leaf(value: bytes) | Node(origin: Origin, kids: seq<Tree>)

  function TreeKey(t: Tree): VarKey { if t.Leaf? then VarKey(t.value, t.value) else KeyOf(t.origin) }

  /** The key of every child has gone into its parent's. */
  predicate Built(t: Tree) {
    t.Node? ==> forall i | 0 <= i < |t.kids| :: Built(t.kids[i]) && GoesInto(TreeKey(t.kids[i]), t.origin)
  }

  predicate Holds(t: Tree, v: bytes) {
    match t
    case Leaf(w) => w == v
    case Node(_, kids) => exists i :: 0 <= i < |kids| && Holds(kids[i], v)
  }

  lemma {:induction false} TreeKeyCovers(t: Tree, v: bytes)
    requires Built(t) && Holds(t, v)
    ensures Covers(TreeKey(t), v)
    decreases t
  {
    hide Covers, GoesInto, KeyOf;
    if t.Leaf? {
      LeafCovers(v);
    } else {
      var i :| 0 <= i < |t.kids| && Holds(t.kids[i], v);
      TreeKeyCovers(t.kids[i], v);
      OriginCovers(t.origin, TreeKey(t.kids[i]), v);
    }
  }

  /** A search that descends where Consistent says so finds exactly the values that satisfy the operator. */
  method Search(t: Tree, q: bytes, s: Strategy) returns (found: set<bytes>)
    requires Built(t)
    ensures forall v :: v in found <==> Holds(t, v) && Satisfies(v, s, q)
    decreases t
  {
    hide Consistent, Satisfies, Covers, GoesInto;
    found := {};
    match t {
      case Leaf(w) =>
        LeafExact(w, q, s);
        if Consistent(VarKey(w, w), q, s, true) { found := {w}; }
      case Node(origin, kids) =>
        for i := 0 to |kids|
          invariant forall v :: v in found <==> (exists j :: 0 <= j < i && Holds(kids[j], v)) && Satisfies(v, s, q)
        {
          if kids[i].Leaf? || Consistent(KeyOf(kids[i].origin), q, s, false) {
            var more := Search(kids[i], q, s);
            found := found + more;
          } else {
            Pruned(kids[i], q, s);
          }
        }
    }
  }

  lemma Pruned(t: Tree, q: bytes, s: Strategy)
    requires Built(t) && t.Node? && !Consistent(KeyOf(t.origin), q, s, false)
    ensures forall v :: Holds(t, v) ==> !Satisfies(v, s, q)
  {
    hide Consistent, Satisfies, Covers, Built, Holds;
    forall v | Holds(t, v) ensures !Satisfies(v, s, q) {
      TreeKeyCovers(t, v);
      if Satisfies(v, s, q) { NeverPrunes(KeyOf(t.origin), v, q, s); }
    }
  }
}
