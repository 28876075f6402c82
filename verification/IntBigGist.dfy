/** The gist__intbig_ops opclass: hashed signatures of int sets, their unions, searches and page splits. */
module IntBigGist {
  import opened QueryEval
  import opened IntGist

  const SIGLEN := 252      // bytes: sizeof(int) * SIGLENINT
  const SIGLENBIT := 2016

  type BitVec = s: seq<bv8> | |s| == SIGLEN witness seq(SIGLEN, i => 0)

  // ----- bits -----

  function Mask(k: nat): bv8
    requires k < 8
  {
    match k
    case 0 => 0x01 case 1 => 0x02 case 2 => 0x04 case 3 => 0x08
    case 4 => 0x10 case 5 => 0x20 case 6 => 0x40 case _ => 0x80
  }

  predicate ByteBit(b: bv8, k: nat)
    requires k < 8
  {
    b & Mask(k) != 0
  }

  predicate GetBit(s: seq<bv8>, i: nat)
    requires |s| == SIGLEN && i < SIGLENBIT
  {
    ByteBit(s[i / 8], i % 8)
  }

  function Or(a: bv8, b: bv8): bv8 { a | b }

  lemma OrBits(a: bv8, b: bv8, k: nat)
    requires k < 8
    ensures ByteBit(Or(a, b), k) <==> ByteBit(a, k) || ByteBit(b, k)
  {
  }

  lemma MaskBits(j: nat, k: nat)
    requires j < 8 && k < 8
    ensures ByteBit(Mask(j), k) <==> j == k
    ensures ByteBit(0xff, k) && !ByteBit(0, k)
  {
  }

  lemma EqualBits(a: bv8, b: bv8)
    requires forall k: nat | k < 8 :: ByteBit(a, k) == ByteBit(b, k)
    ensures a == b
  {
    assert ByteBit(a, 0) == ByteBit(b, 0) && ByteBit(a, 1) == ByteBit(b, 1);
    assert ByteBit(a, 2) == ByteBit(b, 2) && ByteBit(a, 3) == ByteBit(b, 3);
    assert ByteBit(a, 4) == ByteBit(b, 4) && ByteBit(a, 5) == ByteBit(b, 5);
    assert ByteBit(a, 6) == ByteBit(b, 6) && ByteBit(a, 7) == ByteBit(b, 7);
  }

  lemma SubsetBits(a: bv8, b: bv8)
    requires forall k: nat | k < 8 :: ByteBit(a, k) ==> ByteBit(b, k)
    ensures a & !b == 0
  {
    assert (ByteBit(a, 0) ==> ByteBit(b, 0)) && (ByteBit(a, 1) ==> ByteBit(b, 1));
    assert (ByteBit(a, 2) ==> ByteBit(b, 2)) && (ByteBit(a, 3) ==> ByteBit(b, 3));
    assert (ByteBit(a, 4) ==> ByteBit(b, 4)) && (ByteBit(a, 5) ==> ByteBit(b, 5));
    assert (ByteBit(a, 6) ==> ByteBit(b, 6)) && (ByteBit(a, 7) ==> ByteBit(b, 7));
  }

  function HashVal(v: int): nat { (v % 0x1_0000_0000) % SIGLENBIT }

  /** SETBIT */
  method SetBit(s: array<bv8>, i: nat)
    requires s.Length == SIGLEN && i < SIGLENBIT
    modifies s
    ensures forall j: nat | j < SIGLENBIT :: GetBit(s[..], j) <==> j == i || GetBit(old(s[..]), j)
  {
    hide ByteBit, Or, Mask;
    s[i / 8] := Or(s[i / 8], Mask(i % 8));
    forall j: nat | j < SIGLENBIT ensures GetBit(s[..], j) <==> j == i || GetBit(old(s[..]), j) {
      if j / 8 == i / 8 {
        OrBits(old(s[i / 8]), Mask(i % 8), j % 8);
        MaskBits(i % 8, j % 8);
      }
    }
  }

  /** sbase[i] |= sadd[i] for every byte (unionkey, picksplit). */
  method OrInto(base: array<bv8>, add: seq<bv8>)
    requires base.Length == |add| == SIGLEN
    modifies base
    ensures forall j: nat | j < SIGLENBIT :: GetBit(base[..], j) <==> GetBit(old(base[..]), j) || GetBit(add, j)
  {
    hide GetBit, Or;
    ghost var was := base[..];
    for i := 0 to SIGLEN
      invariant forall k | 0 <= k < i :: base[k] == Or(was[k], add[k])
      invariant forall k | i <= k < SIGLEN :: base[k] == was[k]
    {
      base[i] := Or(base[i], add[i]);
    }
    OrAll(was, add, base[..]);
  }

  lemma OrAll(a: seq<bv8>, b: seq<bv8>, c: seq<bv8>)
    requires |a| == |b| == |c| == SIGLEN && forall k | 0 <= k < SIGLEN :: c[k] == Or(a[k], b[k])
    ensures forall j: nat | j < SIGLENBIT :: GetBit(c, j) <==> GetBit(a, j) || GetBit(b, j)
  {
    hide Or, ByteBit;
    forall j: nat | j < SIGLENBIT ensures GetBit(c, j) <==> GetBit(a, j) || GetBit(b, j) {
      OrBits(a[j / 8], b[j / 8], j % 8);
    }
  }

  /** MemSet to 0xff */
  method FillOnes(base: array<bv8>)
    requires base.Length == SIGLEN
    modifies base
    ensures forall j: nat | j < SIGLENBIT :: GetBit(base[..], j)
  {
    for i := 0 to SIGLEN
      invariant forall k | 0 <= k < i :: base[k] == 0xff
    {
      base[i] := 0xff;
    }
    forall j: nat | j < SIGLENBIT ensures GetBit(base[..], j) { MaskBits(j % 8, j % 8); }
  }

  // ----- keys -----

  /** GISTTYPE: a signature, or the ALLISTRUE flag without one. */
  datatype SigKey = AllTrue | Sign(bits: BitVec)

  predicate HasBit(k: SigKey, i: nat)
    requires i < SIGLENBIT
  {
    k.AllTrue? || GetBit(k.bits, i)
  }

  predicate Covers(a: SigKey, b: SigKey) { forall i: nat | i < SIGLENBIT :: HasBit(b, i) ==> HasBit(a, i) }

  /** Some element of `arr` hashes to bit i. */
  ghost predicate Hits(arr: seq<int>, i: nat) { exists v :: v in arr && HashVal(v) == i }

  lemma HitsPrefix(arr: seq<int>, n: nat, i: nat)
    requires n < |arr|
    ensures Hits(arr[..n + 1], i) <==> Hits(arr[..n], i) || HashVal(arr[n]) == i
  {
    assert arr[..n + 1] == arr[..n] + [arr[n]];
    assert forall v :: v in arr[..n + 1] <==> v in arr[..n] || v == arr[n];
  }

  /** The bits of exactly the hashed elements. */
  ghost predicate IsSignOf(s: seq<bv8>, arr: seq<int>)
    requires |s| == SIGLEN
  {
    forall i: nat | i < SIGLENBIT :: GetBit(s, i) <==> Hits(arr, i)
  }

  /** g_intbig_compress on a leaf key; the same loop builds query signatures. */
  method GenSign(arr: seq<int>) returns (sign: BitVec)
    ensures IsSignOf(sign, arr)
  {
    var s := new bv8[SIGLEN](_ => 0);
    NoBits(s[..]);
    for n := 0 to |arr|
      invariant IsSignOf(s[..], arr[..n])
    {
      SetBit(s, HashVal(arr[n]));
      forall i: nat | i < SIGLENBIT ensures GetBit(s[..], i) <==> Hits(arr[..n + 1], i) { HitsPrefix(arr, n, i); }
    }
    assert arr[..|arr|] == arr;
    sign := s[..];
  }

  lemma SomeBitOff(b: bv8) returns (k: nat)
    requires b != 0xff
    ensures k < 8 && !ByteBit(b, k)
  {
    if !ByteBit(b, 0) { k := 0; } else if !ByteBit(b, 1) { k := 1; } else if !ByteBit(b, 2) { k := 2; }
    else if !ByteBit(b, 3) { k := 3; } else if !ByteBit(b, 4) { k := 4; } else if !ByteBit(b, 5) { k := 5; }
    else if !ByteBit(b, 6) { k := 6; } else { k := 7; }
  }

  /** g_intbig_compress on an internal key: with all bits set it becomes the flag. */
  method CompressInner(key: SigKey) returns (r: SigKey)
    ensures forall i: nat | i < SIGLENBIT :: HasBit(r, i) <==> HasBit(key, i)
    ensures if forall i: nat | i < SIGLENBIT :: HasBit(key, i) then r.AllTrue? else r == key
  {
    if key.AllTrue? { return key; }
    for i := 0 to SIGLEN
      invariant forall k | 0 <= k < i :: key.bits[k] == 0xff
    {
      if key.bits[i] != 0xff {
        var k := SomeBitOff(key.bits[i]);
        assert (8 * i + k) / 8 == i && (8 * i + k) % 8 == k;
        assert !HasBit(key, 8 * i + k);
        return key;
      }
    }
    forall j: nat | j < SIGLENBIT ensures GetBit(key.bits, j) { MaskBits(j % 8, j % 8); }
    r := AllTrue;
  }

  predicate SomeHas(entries: seq<SigKey>, i: nat)
    requires i < SIGLENBIT
  {
    exists k :: 0 <= k < |entries| && HasBit(entries[k], i)
  }

  /** A key with exactly the bits of the entries. */
  predicate BigParentOf(entries: seq<SigKey>, key: SigKey) {
    forall i: nat | i < SIGLENBIT :: HasBit(key, i) <==> SomeHas(entries, i)
  }

  /** g_intbig_union */
  method GIntBigUnion(entries: seq<SigKey>) returns (r: SigKey)
    ensures BigParentOf(entries, r) && (r.AllTrue? <==> exists k :: 0 <= k < |entries| && entries[k].AllTrue?)
  {
    hide GetBit;
    var base := new bv8[SIGLEN](_ => 0);
    NoBits(base[..]);
    for n := 0 to |entries|
      invariant forall i: nat | i < SIGLENBIT :: GetBit(base[..], i) <==> SomeHas(entries[..n], i)
      invariant forall k | 0 <= k < n :: !entries[k].AllTrue?
    {
      if entries[n].AllTrue? {
        forall i: nat | i < SIGLENBIT ensures SomeHas(entries, i) { assert HasBit(entries[n], i); }
        return AllTrue;
      }
      OrInto(base, entries[n].bits);
      forall i: nat | i < SIGLENBIT ensures GetBit(base[..], i) <==> SomeHas(entries[..n + 1], i) {
        SomeStep(entries, n, i);
        assert HasBit(entries[n], i) == GetBit(entries[n].bits, i);
      }
    }
    assert entries[..|entries|] == entries;
    r := Sign(base[..]);
    assert forall i: nat | i < SIGLENBIT :: HasBit(r, i) == GetBit(base[..], i);
  }

  lemma NoBits(s: seq<bv8>)
    requires |s| == SIGLEN && forall k | 0 <= k < SIGLEN :: s[k] == 0
    ensures forall i: nat | i < SIGLENBIT :: !GetBit(s, i)
  {
    hide ByteBit;
    forall i: nat | i < SIGLENBIT ensures !GetBit(s, i) { MaskBits(i % 8, i % 8); }
  }

  lemma SomeStep(entries: seq<SigKey>, n: nat, i: nat)
    requires n < |entries| && i < SIGLENBIT
    ensures SomeHas(entries[..n + 1], i) <==> SomeHas(entries[..n], i) || HasBit(entries[n], i)
  {
    hide HasBit;
    var more := entries[..n + 1];
    assert forall k | 0 <= k < n :: more[k] == entries[..n][k];
    if HasBit(entries[n], i) { assert HasBit(more[n], i); }
    if SomeHas(entries[..n], i) {
      var k :| 0 <= k < n && HasBit(entries[..n][k], i);
      assert HasBit(more[k], i);
    }
  }

  /** The key above some entries as searches see it: united and compressed. */
  method BigParentKey(entries: seq<SigKey>) returns (r: SigKey)
    ensures BigParentOf(entries, r)
  {
    var u := GIntBigUnion(entries);
    r := CompressInner(u);
  }

  /** Every key that is made of others has their bits. */
  ghost predicate BigWellMade(o: Origin<SigKey>) {
    o.United? ==> (forall i | 0 <= i < |o.parts| :: BigWellMade(o.parts[i])) && BigParentOf(Keys(o.parts), o.key)
  }

  /** Nothing that has gone into a key is lost from it. */
  lemma {:induction false} BigOriginCovers(o: Origin<SigKey>, k: SigKey)
    requires BigWellMade(o) && GoesInto(k, o)
    ensures Covers(o.key, k)
    decreases o
  {
    hide HasBit;
    if o.United? {
      var i :| 0 <= i < |o.parts| && GoesInto(k, o.parts[i]);
      BigOriginCovers(o.parts[i], k);
      forall b: nat | b < SIGLENBIT && HasBit(k, b) ensures HasBit(o.key, b) {
        assert HasBit(Keys(o.parts)[i], b);
        assert SomeHas(Keys(o.parts), b);
      }
    }
  }

  // ----- searches -----

  /** What g_intbig_consistent answers. */
  ghost predicate BigConsistent(key: SigKey, leaf: bool, q: Query, strategy: nat)
    requires BigWellFormed(q, strategy)
  {
    key.AllTrue? ||
    if strategy == BOOLEAN then Execute(q.items, |q.items| - 1, false, InSign(key.bits))
    else if strategy == OVERLAP then exists k :: 0 <= k < |q.arr| && GetBit(key.bits, HashVal(q.arr[k]))
    else if strategy == SAME && leaf then IsSignOf(key.bits, q.arr)
    else if strategy == SAME || strategy == CONTAINS || strategy == OLD_CONTAINS then
      forall k | 0 <= k < |q.arr| :: GetBit(key.bits, HashVal(q.arr[k]))
    else if strategy == CONTAINED_BY || strategy == OLD_CONTAINED_BY then
      leaf ==> forall i: nat | i < SIGLENBIT :: GetBit(key.bits, i) ==> Hits(q.arr, i)
    else false
  }

  /** This opclass does not sort its array queries. */
  predicate BigWellFormed(q: Query, strategy: nat) {
    if strategy == BOOLEAN then q.Bool? && |q.items| > 0 && Linked(q.items) else q.Array?
  }

  function InSign(s: BitVec): Check { (p: nat, v: int) => GetBit(s, HashVal(v)) }

  method BigOverlap(bits: BitVec, arr: seq<int>) returns (r: bool)
    ensures r <==> exists k :: 0 <= k < |arr| && GetBit(bits, HashVal(arr[k]))
  {
    for n := 0 to |arr|
      invariant forall k | 0 <= k < n :: !GetBit(bits, HashVal(arr[k]))
    {
      if GetBit(bits, HashVal(arr[n])) { return true; }
    }
    r := false;
  }

  method BigContains(bits: BitVec, arr: seq<int>) returns (r: bool)
    ensures r <==> forall k | 0 <= k < |arr| :: GetBit(bits, HashVal(arr[k]))
  {
    for n := 0 to |arr|
      invariant forall k | 0 <= k < n :: GetBit(bits, HashVal(arr[k]))
    {
      if !GetBit(bits, HashVal(arr[n])) { return false; }
    }
    r := true;
  }

  /** Two signatures are equal byte for byte iff they are the signature of the same elements. */
  lemma SameSign(s: BitVec, qp: BitVec, arr: seq<int>)
    requires IsSignOf(qp, arr)
    ensures s == qp <==> IsSignOf(s, arr)
  {
    if IsSignOf(s, arr) {
      forall b | 0 <= b < SIGLEN ensures s[b] == qp[b] {
        forall k: nat | k < 8 ensures ByteBit(s[b], k) == ByteBit(qp[b], k) {
          var i := 8 * b + k;
          assert i / 8 == b && i % 8 == k;
          assert GetBit(s, i) == GetBit(qp, i);
        }
        EqualBits(s[b], qp[b]);
      }
    }
  }

  predicate SubBytes(s: BitVec, qp: BitVec) { forall b | 0 <= b < SIGLEN :: s[b] & !qp[b] == 0 }

  predicate SubBits(s: BitVec, qp: BitVec) { forall i: nat | i < SIGLENBIT :: GetBit(s, i) ==> GetBit(qp, i) }

  /** The byte test of <@ on a leaf is the bit-wise subset test. */
  lemma SubsetSign(s: BitVec, qp: BitVec)
    ensures SubBytes(s, qp) <==> SubBits(s, qp)
  {
    if SubBytes(s, qp) {
      forall i: nat | i < SIGLENBIT ensures GetBit(s, i) ==> GetBit(qp, i) { SubsetByte(s[i / 8], qp[i / 8], i % 8); }
    }
    if SubBits(s, qp) {
      forall b | 0 <= b < SIGLEN ensures s[b] & !qp[b] == 0 { SubsetAt(s, qp, b); }
    }
  }

  lemma SubsetAt(s: BitVec, qp: BitVec, b: nat)
    requires SubBits(s, qp) && b < SIGLEN
    ensures s[b] & !qp[b] == 0
  {
    forall k: nat | k < 8 ensures ByteBit(s[b], k) ==> ByteBit(qp[b], k) {
      var i := 8 * b + k;
      assert i / 8 == b && i % 8 == k;
      assert GetBit(s, i) ==> GetBit(qp, i);
    }
    SubsetBits(s[b], qp[b]);
  }

  lemma SubsetByte(a: bv8, b: bv8, k: nat)
    requires k < 8 && a & !b == 0
    ensures ByteBit(a, k) ==> ByteBit(b, k)
  {
  }

  method GIntBigConsistent(key: SigKey, leaf: bool, q: Query, strategy: nat) returns (r: bool)
    requires BigWellFormed(q, strategy)
    ensures r <==> BigConsistent(key, leaf, q, strategy)
  {
    if key.AllTrue? { return true; }
    if strategy == BOOLEAN {
      r := Execute(q.items, |q.items| - 1, false, InSign(key.bits));
    } else if strategy == OVERLAP {
      r := BigOverlap(key.bits, q.arr);
    } else if strategy == SAME && leaf {
      var dq := GenSign(q.arr);
      SameSign(key.bits, dq, q.arr);
      r := true;
      for b := 0 to SIGLEN
        invariant r && forall c | 0 <= c < b :: key.bits[c] == dq[c]
      {
        if key.bits[b] != dq[b] { return false; }
      }
      assert key.bits == dq;
    } else if strategy == SAME || strategy == CONTAINS || strategy == OLD_CONTAINS {
      r := BigContains(key.bits, q.arr);
    } else if strategy == CONTAINED_BY || strategy == OLD_CONTAINED_BY {
      r := true;
      if leaf {
        var dq := GenSign(q.arr);
        SubsetSign(key.bits, dq);
        for b := 0 to SIGLEN
          invariant r && forall c | 0 <= c < b :: key.bits[c] & !dq[c] == 0
        {
          if key.bits[b] & !dq[b] != 0 { return false; }
        }
      }
    } else {
      r := false;
    }
  }

  /** An index: leaf rows, stored as their signatures, under keys. */
  datatype BigGist = BigLeaf(row: seq<int>, sign: BitVec) | BigInner(origin: Origin<SigKey>, kids: seq<BigGist>)

  function BigKeyOf(n: BigGist): SigKey { if n.BigLeaf? then Sign(n.sign) else n.origin.key }

  /** Leaves carry their row's signature, and the key of every child has gone into its parent's. */
  ghost predicate BigBuilt(n: BigGist) {
    match n
    case BigLeaf(row, sign) => IsSignOf(sign, row)
    case BigInner(origin, kids) =>
      BigWellMade(origin) && forall i | 0 <= i < |kids| :: BigBuilt(kids[i]) && GoesInto(BigKeyOf(kids[i]), origin)
  }

  ghost predicate BigUnder(leaf: BigGist, n: BigGist) {
    leaf == n || (n.BigInner? && exists i :: 0 <= i < |n.kids| && BigUnder(leaf, n.kids[i]))
  }

  /** The row satisfies the indexed operator, as a set. */
  ghost predicate BigMatches(row: seq<int>, q: Query, strategy: nat)
    requires BigWellFormed(q, strategy)
  {
    if strategy == BOOLEAN then Execute(q.items, |q.items| - 1, true, Among(row))
    else if strategy == OVERLAP then exists v :: v in row && v in q.arr
    else if strategy == SAME then forall v :: v in row <==> v in q.arr
    else if strategy == CONTAINS || strategy == OLD_CONTAINS then forall v :: v in q.arr ==> v in row
    else if strategy == CONTAINED_BY || strategy == OLD_CONTAINED_BY then forall v :: v in row ==> v in q.arr
    else false
  }

  lemma {:induction false} SignBelowKey(leaf: BigGist, n: BigGist)
    requires BigBuilt(n) && leaf.BigLeaf? && BigUnder(leaf, n)
    ensures Covers(BigKeyOf(n), Sign(leaf.sign)) && IsSignOf(leaf.sign, leaf.row)
    decreases n
  {
    hide Covers, BigWellMade, GoesInto;
    if n.BigInner? {
      var i :| 0 <= i < |n.kids| && BigUnder(leaf, n.kids[i]);
      SignBelowKey(leaf, n.kids[i]);
      BigOriginCovers(n.origin, BigKeyOf(n.kids[i]));
      CoversTrans(BigKeyOf(n), BigKeyOf(n.kids[i]), Sign(leaf.sign));
    } else {
      CoversSelf(Sign(n.sign));
    }
  }

  /** No signature on the way to a matching row is pruned, and the row itself is found. */
  lemma BigSearchFindsMatches(leaf: BigGist, n: BigGist, q: Query, strategy: nat)
    requires BigBuilt(n) && leaf.BigLeaf? && BigUnder(leaf, n) && BigWellFormed(q, strategy)
    requires BigMatches(leaf.row, q, strategy)
    ensures BigConsistent(BigKeyOf(n), n.BigLeaf?, q, strategy)
  {
    SignBelowKey(leaf, n);
    var key := BigKeyOf(n);
    if key.Sign? {
      forall v | v in leaf.row ensures GetBit(key.bits, HashVal(v)) {
        assert Hits(leaf.row, HashVal(v));
        assert HasBit(Sign(leaf.sign), HashVal(v));
      }
      if strategy == BOOLEAN {
        ApproximationKeepsMatches(q.items, |q.items| - 1, Among(leaf.row), InSign(key.bits));
      } else if strategy == OVERLAP {
        var v :| v in leaf.row && v in q.arr;
      } else if n.BigLeaf? {
        LeafHits(leaf.row, q, strategy);
      }
    }
  }

  lemma LeafHits(row: seq<int>, q: Query, strategy: nat)
    requires BigWellFormed(q, strategy) && strategy != BOOLEAN && BigMatches(row, q, strategy)
    ensures strategy == SAME ==> forall i: nat :: Hits(row, i) <==> Hits(q.arr, i)
    ensures strategy == CONTAINED_BY || strategy == OLD_CONTAINED_BY ==>
              forall i: nat :: Hits(row, i) ==> Hits(q.arr, i)
  {
  }

  // ----- signatures rule out all they can -----

  /** The bit numbers below n that are set, as elements that hash to them. */
  function BitRow(s: BitVec, n: nat): (row: seq<int>)
    requires n <= SIGLENBIT
    ensures forall v :: v in row <==> 0 <= v < n && GetBit(s, v)
  {
    if n == 0 then [] else BitRow(s, n - 1) + if GetBit(s, n - 1) then [n - 1] else []
  }

  /** The elements whose bits are set. */
  function Covered(s: BitVec, arr: seq<int>): (row: seq<int>)
    ensures forall v :: v in row <==> v in arr && GetBit(s, HashVal(v))
  {
    if |arr| == 0 then [] else
    var init, last := arr[..|arr| - 1], arr[|arr| - 1];
    Covered(s, init) + if GetBit(s, HashVal(last)) then [last] else []
  }

  /** A row that may be under the key: on a leaf, one with this very signature; otherwise one with no bit
      that the key does not have. */
  ghost predicate MayHold(bits: BitVec, leaf: bool, row: seq<int>) {
    if leaf then IsSignOf(bits, row) else forall i: nat | i < SIGLENBIT :: Hits(row, i) ==> GetBit(bits, i)
  }

  ghost predicate RowPossible(bits: BitVec, leaf: bool, q: Query, strategy: nat, row: seq<int>)
    requires BigWellFormed(q, strategy)
  {
    MayHold(bits, leaf, row) && BigMatches(row, q, strategy)
  }

  /** A matching row that may be under the key, for a key that is consistent. */
  function Witness(bits: BitVec, leaf: bool, q: Query, strategy: nat): seq<int> {
    var all := BitRow(bits, SIGLENBIT);
    if strategy == CONTAINED_BY || strategy == OLD_CONTAINED_BY then
      if leaf && q.Array? then Covered(bits, q.arr) else []
    else if strategy == SAME && q.Array? then q.arr
    else if q.Array? then all + Covered(bits, q.arr) else all + Covered(bits, Values(q.items))
  }

  function Values(items: seq<Item>): (vs: seq<int>)
    ensures forall i | 0 <= i < |items| && items[i].node.VAL? :: items[i].node.v in vs
  {
    if |items| == 0 then [] else
    Values(items[..|items| - 1]) + if items[|items| - 1].node.VAL? then [items[|items| - 1].node.v] else []
  }

  lemma AllBitsMayHold(bits: BitVec, leaf: bool, more: seq<int>)
    requires forall v | v in more :: GetBit(bits, HashVal(v))
    ensures MayHold(bits, leaf, BitRow(bits, SIGLENBIT) + more)
  {
    hide GetBit;
    var row := BitRow(bits, SIGLENBIT) + more;
    forall i: nat | i < SIGLENBIT ensures GetBit(bits, i) <==> Hits(row, i) {
      if GetBit(bits, i) { assert i in row && HashVal(i) == i; }
    }
  }

  /** With a signature instead of the all-true flag, and without NOT in the query, the test says yes exactly
      if some row that may be there matches. */
  lemma BigExact(bits: BitVec, leaf: bool, q: Query, strategy: nat)
    requires BigWellFormed(q, strategy) && (strategy == BOOLEAN ==> NotFree(q.items))
    ensures BigConsistent(Sign(bits), leaf, q, strategy) <==> exists row :: RowPossible(bits, leaf, q, strategy, row)
  {
    hide GetBit, BigMatches, BigConsistent, MayHold;
    forall row | RowPossible(bits, leaf, q, strategy, row) ensures BigConsistent(Sign(bits), leaf, q, strategy) {
      PossibleIsConsistent(bits, leaf, q, strategy, row);
    }
    if BigConsistent(Sign(bits), leaf, q, strategy) {
      ConsistentIsPossible(bits, leaf, q, strategy);
      assert RowPossible(bits, leaf, q, strategy, Witness(bits, leaf, q, strategy));
    }
  }

  lemma PossibleIsConsistent(bits: BitVec, leaf: bool, q: Query, strategy: nat, row: seq<int>)
    requires BigWellFormed(q, strategy) && RowPossible(bits, leaf, q, strategy, row)
    ensures BigConsistent(Sign(bits), leaf, q, strategy)
  {
    hide GetBit;
    forall v | v in row ensures GetBit(bits, HashVal(v)) { assert Hits(row, HashVal(v)); }
    if strategy == BOOLEAN {
      ApproximationKeepsMatches(q.items, |q.items| - 1, Among(row), InSign(bits));
    } else if strategy == OVERLAP {
      var v :| v in row && v in q.arr;
    } else if leaf {
      LeafHits(row, q, strategy);
    }
  }

  lemma ConsistentIsPossible(bits: BitVec, leaf: bool, q: Query, strategy: nat)
    requires BigWellFormed(q, strategy) && (strategy == BOOLEAN ==> NotFree(q.items))
    requires BigConsistent(Sign(bits), leaf, q, strategy)
    ensures RowPossible(bits, leaf, q, strategy, Witness(bits, leaf, q, strategy))
  {
    hide GetBit;
    var row := Witness(bits, leaf, q, strategy);
    if strategy == BOOLEAN {
      AllBitsMayHold(bits, leaf, Covered(bits, Values(q.items)));
      SameWithoutNot(q.items, |q.items| - 1, InSign(bits));
      SameTests(q.items, |q.items| - 1, InSign(bits), Among(row));
    } else if strategy == SAME {
      forall i: nat | i < SIGLENBIT && Hits(q.arr, i) ensures GetBit(bits, i) {
        var v :| v in q.arr && HashVal(v) == i;
      }
    } else if strategy == CONTAINED_BY || strategy == OLD_CONTAINED_BY {
      if leaf {
        forall i: nat | i < SIGLENBIT && GetBit(bits, i) ensures Hits(row, i) {
          var v :| v in q.arr && HashVal(v) == i;
          assert v in row;
        }
      }
    } else {
      AllBitsMayHold(bits, leaf, Covered(bits, q.arr));
    }
  }

  /** Tests that agree on the query's values give the same answer. */
  lemma {:induction false} SameTests(items: seq<Item>, cur: nat, f: Check, g: Check)
    requires Linked(items) && cur < |items|
    requires forall p: nat | p < |items| && items[p].node.VAL? :: f(p, items[p].node.v) == g(p, items[p].node.v)
    ensures Execute(items, cur, true, f) == Execute(items, cur, true, g)
    decreases cur
  {
    assert LinkAt(items, cur);
    match items[cur].node
    case VAL(_) =>
    case OPR(c) =>
      SameTests(items, cur - 1, f, g);
      if c != '!' { SameTests(items, cur + items[cur].left, f, g); }
  }

  // ----- page splits -----

  predicate SideHas(side: seq<nat>, keys: seq<SigKey>, i: nat)
    requires ValidSide(side, keys) && i < SIGLENBIT
  {
    exists k :: 0 <= k < |side| && HasBit(keys[side[k] - 1], i)
  }

  /** The datum so far: the bits of the seed's key and of those of the offsets in `side`. */
  predicate BigGrownTo(datum: SigKey, seed: nat, side: seq<nat>, keys: seq<SigKey>) {
    && 1 <= seed <= |keys| && ValidSide(side, keys)
    && forall i: nat | i < SIGLENBIT :: HasBit(datum, i) <==> HasBit(keys[seed - 1], i) || SideHas(side, keys, i)
  }

  /** datum' is the datum with the bits of one more key. */
  predicate Joined(datum': SigKey, datum: SigKey, key: SigKey) {
    forall i: nat | i < SIGLENBIT :: HasBit(datum', i) <==> HasBit(datum, i) || HasBit(key, i)
  }

  lemma BigGrowStep(datum: SigKey, datum': SigKey, seed: nat, side: seq<nat>, keys: seq<SigKey>, i: nat)
    requires BigGrownTo(datum, seed, side, keys) && 1 <= i <= |keys|
    requires Joined(datum', datum, keys[i - 1]) || (i == seed && datum' == datum)
    ensures BigGrownTo(datum', seed, side + [i], keys)
  {
    hide HasBit, SideHas;
    var more := side + [i];
    assert forall k | 0 <= k < |side| :: more[k] == side[k];
    forall b: nat | b < SIGLENBIT ensures HasBit(datum', b) <==> HasBit(keys[seed - 1], b) || SideHas(more, keys, b) {
      SideStep(side, keys, i, b);
    }
  }

  lemma SideStep(side: seq<nat>, keys: seq<SigKey>, i: nat, b: nat)
    requires ValidSide(side, keys) && 1 <= i <= |keys| && b < SIGLENBIT
    ensures ValidSide(side + [i], keys)
    ensures SideHas(side + [i], keys, b) <==> SideHas(side, keys, b) || HasBit(keys[i - 1], b)
  {
    hide HasBit;
    var more := side + [i];
    assert forall k | 0 <= k < |side| :: more[k] == side[k];
    if SideHas(side, keys, b) {
      var k :| 0 <= k < |side| && HasBit(keys[side[k] - 1], b);
      assert HasBit(keys[more[k] - 1], b);
    }
    if HasBit(keys[i - 1], b) { assert HasBit(keys[more[|side|] - 1], b); }
  }

  lemma BigGrownIsUnion(datum: SigKey, seed: nat, side: seq<nat>, keys: seq<SigKey>)
    requires BigGrownTo(datum, seed, side, keys) && seed in side
    ensures ValidSide(side, keys) && BigParentOf(Chosen(keys, side), datum)
  {
    hide HasBit;
    var ks := Chosen(keys, side);
    var s :| 0 <= s < |side| && side[s] == seed;
    forall b: nat | b < SIGLENBIT ensures HasBit(datum, b) <==> SomeHas(ks, b) {
      if HasBit(keys[seed - 1], b) { assert HasBit(ks[s], b); }
      if SideHas(side, keys, b) {
        var k :| 0 <= k < |side| && HasBit(keys[side[k] - 1], b);
        assert HasBit(ks[k], b);
      }
      if SomeHas(ks, b) {
        var k :| 0 <= k < |ks| && HasBit(ks[k], b);
        assert HasBit(keys[side[k] - 1], b);
      }
    }
  }

  lemma CoversTrans(a: SigKey, b: SigKey, c: SigKey)
    requires Covers(a, b) && Covers(b, c)
    ensures Covers(a, c)
  {
    forall i: nat | i < SIGLENBIT && HasBit(c, i) ensures HasBit(a, i) { assert HasBit(b, i); }
  }

  /** A side's datum while the split runs: the flag, and the bits when the flag is off. */
  class Side {
    const allTrue: bool
    const bits: array<bv8>

    constructor (seed: SigKey)
      ensures bits.Length == SIGLEN && fresh(bits) && Datum() == seed
    {
      allTrue := seed.AllTrue?;
      bits := new bv8[SIGLEN](i => if 0 <= i < SIGLEN && seed.Sign? then seed.bits[i] else 0);
      new;
      assert seed.Sign? ==> bits[..] == seed.bits;
    }

    function Datum(): SigKey
      reads bits
    {
      if allTrue || bits.Length != SIGLEN then AllTrue else Sign(bits[..])
    }

    /** Adds one key: nothing to do for an ALLISTRUE datum; an ALLISTRUE key sets every byte to 0xff. */
    method Add(key: SigKey)
      requires bits.Length == SIGLEN
      modifies bits
      ensures Joined(Datum(), old(Datum()), key)
    {
      if allTrue || key.AllTrue? {
        if !allTrue { FillOnes(bits); }
      } else {
        OrInto(bits, key.bits);
      }
    }
  }

  /** g_intbig_picksplit and ghstore_picksplit: for any distance and tie arithmetic and any order of the
      cost vector, every offset lands on exactly one side, no side is empty, and each side's datum has
      exactly the bits of the keys assigned to it. */
  method GIntBigPickSplit(keys: seq<SigKey>, order: seq<nat>, waste: (nat, nat) -> real,
                          enlargesLess: (SigKey, SigKey, nat, nat, nat) -> bool)
    returns (left: seq<nat>, right: seq<nat>, ldatum: SigKey, rdatum: SigKey)
    requires |keys| >= 2 && Permutes(order, |keys|)
    ensures Partition(left, right, order) && |left| > 0 && |right| > 0
    ensures ValidSide(left, keys) && BigParentOf(Chosen(keys, left), ldatum)
    ensures ValidSide(right, keys) && BigParentOf(Chosen(keys, right), rdatum)
  {
    hide Partition, BigGrownTo, BigParentOf, Joined;
    var n := |keys|;
    var seed_1, seed_2 := PickSeeds(n, waste);
    var l := new Side(keys[seed_1 - 1]);
    var r := new Side(keys[seed_2 - 1]);
    left, right := [], [];
    SidesEmpty(seed_1, keys);
    SidesEmpty(seed_2, keys);
    assert order[..0] == [];
    for j := 0 to n
      invariant l.bits.Length == r.bits.Length == SIGLEN && l.bits != r.bits && fresh(l.bits) && fresh(r.bits)
      invariant Partition(left, right, order[..j])
      invariant BigGrownTo(l.Datum(), seed_1, left, keys) && BigGrownTo(r.Datum(), seed_2, right, keys)
      invariant (seed_1 in order[..j] ==> seed_1 in left) && (seed_2 in order[..j] ==> seed_2 in right)
    {
      var i := order[j];
      assert order[..j + 1] == order[..j] + [i];
      ghost var dl, dr := l.Datum(), r.Datum();
      if i == seed_1 {
        PartitionStep(left, right, order, j, true);
        BigGrowStep(dl, dl, seed_1, left, keys, i);
        left := left + [i];
        continue;
      } else if i == seed_2 {
        PartitionStep(left, right, order, j, false);
        BigGrowStep(dr, dr, seed_2, right, keys, i);
        right := right + [i];
        continue;
      }
      if enlargesLess(l.Datum(), r.Datum(), i, |left|, |right|) {
        l.Add(keys[i - 1]);
        PartitionStep(left, right, order, j, true);
        BigGrowStep(dl, l.Datum(), seed_1, left, keys, i);
        left := left + [i];
      } else {
        r.Add(keys[i - 1]);
        PartitionStep(left, right, order, j, false);
        BigGrowStep(dr, r.Datum(), seed_2, right, keys, i);
        right := right + [i];
      }
    }
    assert order[..n] == order;
    assert seed_1 in order && seed_2 in order;
    ldatum, rdatum := l.Datum(), r.Datum();
    BigGrownIsUnion(ldatum, seed_1, left, keys);
    BigGrownIsUnion(rdatum, seed_2, right, keys);
  }

  lemma CoversSelf(k: SigKey)
    ensures Covers(k, k)
  {
  }

  lemma SidesEmpty(seed: nat, keys: seq<SigKey>)
    requires 1 <= seed <= |keys|
    ensures BigGrownTo(keys[seed - 1], seed, [], keys) && Partition([], [], [])
  {
  }
}
