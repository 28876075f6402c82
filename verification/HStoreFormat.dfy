/** The packed hstore value: end-offset entries before one string of keys and values. */
module HStoreFormat {
  import opened Bytes
  import opened Common

  /** HEntry: the two flags and the end position of one key or value. */
  datatype HEntry = HEntry(isfirst: bool, isnull: bool, endpos: nat)

  /** An hstore: two entries per pair, then the strings. */
  datatype HStore = HStore(ents: seq<HEntry>, str: bytes)

  /** A decompressed pair; a null value is None. */
  datatype Pair = Pair(key: bytes, val: Option<bytes>)

  function Count(h: HStore): nat { |h.ents| / 2 }

  // HSE_OFF and HSE_LEN
  function Off(ents: seq<HEntry>, i: nat): nat
    requires i < |ents| && (i == 0 ==> ents[0].isfirst)
  {
    if ents[i].isfirst then 0 else ents[i - 1].endpos
  }

  /** The entries are in order and end with the string; only the first is marked as first, and only
      values can be null, which then take no space. */
  predicate WellFormed(h: HStore) {
    && |h.ents| % 2 == 0
    && (|h.ents| == 0 ==> h.str == [])
    && (|h.ents| > 0 ==> h.ents[|h.ents| - 1].endpos == |h.str|)
    && (forall i | 0 <= i < |h.ents| :: EntryOk(h.ents, i))
  }

  predicate EntryOk(ents: seq<HEntry>, i: nat)
    requires i < |ents|
  {
    && (ents[i].isfirst <==> i == 0)
    && Off(ents, i) <= ents[i].endpos
    && (ents[i].isnull ==> i % 2 == 1 && Off(ents, i) == ents[i].endpos)
    && (i + 1 < |ents| ==> ents[i].endpos <= ents[i + 1].endpos)
  }

  lemma {:induction false} EndsGrow(h: HStore, i: nat, j: nat)
    requires WellFormed(h) && i <= j < |h.ents|
    ensures h.ents[i].endpos <= h.ents[j].endpos <= |h.str|
    decreases |h.ents| - i
  {
    assert EntryOk(h.ents, i);
    if i < j {
      EndsGrow(h, i + 1, j);
    } else if i + 1 < |h.ents| {
      EndsGrow(h, i + 1, i + 1);
    }
  }

  /** The string of entry i (HSTORE_KEY and HSTORE_VAL with their lengths). */
  function Piece(h: HStore, i: nat): bytes
    requires WellFormed(h) && i < |h.ents|
  {
    assert EntryOk(h.ents, i);
    EndsGrow(h, i, i);
    h.str[Off(h.ents, i)..h.ents[i].endpos]
  }

  function PairAt(h: HStore, i: nat): Pair
    requires WellFormed(h) && i < Count(h)
  {
    Pair(Piece(h, 2 * i), if h.ents[2 * i + 1].isnull then None else Some(Piece(h, 2 * i + 1)))
  }

  function Pairs(h: HStore): (ps: seq<Pair>)
    requires WellFormed(h)
    ensures |ps| == Count(h)
  {
    seq(Count(h), i requires 0 <= i < Count(h) => PairAt(h, i))
  }

  /** Keys strictly increase by length, then bytes. */
  predicate Sorted(ps: seq<Pair>) { forall i, j | 0 <= i < j < |ps| :: KeyLess(ps[i].key, ps[j].key) }

  predicate Canonical(h: HStore) { WellFormed(h) && Sorted(Pairs(h)) }

  // ----- packing -----

  function ValBytes(p: Pair): bytes { if p.val.Some? then p.val.value else [] }

  function PackStr(ps: seq<Pair>): bytes {
    if |ps| == 0 then [] else PackStr(ps[..|ps| - 1]) + ps[|ps| - 1].key + ValBytes(ps[|ps| - 1])
  }

  /** The entries as they are written, before the first one is marked. */
  function RawEnts(ps: seq<Pair>): (es: seq<HEntry>)
    ensures |es| == 2 * |ps|
  {
    if |ps| == 0 then [] else
    var p, at := ps[|ps| - 1], |PackStr(ps[..|ps| - 1])|;
    RawEnts(ps[..|ps| - 1]) + EntriesOf(p, at)
  }

  /** The two entries of a pair whose strings start at `at`. */
  function EntriesOf(p: Pair, at: nat): (es: seq<HEntry>)
    ensures |es| == 2
  {
    [HEntry(false, false, at + |p.key|), HEntry(false, p.val.None?, at + |p.key| + |ValBytes(p)|)]
  }

  function MarkFirst(es: seq<HEntry>): seq<HEntry> {
    if |es| == 0 then es else es[0 := es[0].(isfirst := true)]
  }

  function Pack(ps: seq<Pair>): HStore { HStore(MarkFirst(RawEnts(ps)), PackStr(ps)) }

  // ----- packing and unpacking are inverse -----

  lemma {:induction false} StrPrefix(ps: seq<Pair>, i: nat)
    requires i <= |ps|
    ensures Prefix(PackStr(ps[..i]), PackStr(ps))
    decreases |ps|
  {
    if i < |ps| {
      var init := ps[..|ps| - 1];
      StrPrefix(init, i);
      assert init[..i] == ps[..i];
      var a, b := PackStr(ps[..i]), PackStr(init);
      assert PackStr(ps) == b + (ps[|ps| - 1].key + ValBytes(ps[|ps| - 1]));
      assert PackStr(ps)[..|a|] == b[..|a|];
    } else {
      assert ps[..i] == ps;
      assert PackStr(ps)[..|PackStr(ps)|] == PackStr(ps);
    }
  }

  lemma StrStep(ps: seq<Pair>, i: nat)
    requires i < |ps|
    ensures PackStr(ps[..i + 1]) == PackStr(ps[..i]) + ps[i].key + ValBytes(ps[i])
    ensures Prefix(PackStr(ps[..i + 1]), PackStr(ps)) && Prefix(PackStr(ps[..i]), PackStr(ps))
  {
    assert ps[..i + 1][..i] == ps[..i];
    StrPrefix(ps, i);
    StrPrefix(ps, i + 1);
  }

  lemma {:induction false} RawAt(ps: seq<Pair>, i: nat)
    requires i < |ps|
    ensures var at := |PackStr(ps[..i])|;
            && RawEnts(ps)[2 * i] == HEntry(false, false, at + |ps[i].key|)
            && RawEnts(ps)[2 * i + 1] == HEntry(false, ps[i].val.None?, at + |ps[i].key| + |ValBytes(ps[i])|)
    decreases |ps|
  {
    if i < |ps| - 1 {
      var init := ps[..|ps| - 1];
      RawAt(init, i);
      assert init[..i] == ps[..i];
    }
  }

  /** The entries and pieces of a packed value, pair by pair. */
  lemma PackedAt(ps: seq<Pair>, i: nat)
    requires i < |ps|
    ensures var h, at := Pack(ps), |PackStr(ps[..i])|;
            && h.ents[2 * i] == HEntry(i == 0, false, at + |ps[i].key|)
            && h.ents[2 * i + 1] == HEntry(false, ps[i].val.None?, at + |ps[i].key| + |ValBytes(ps[i])|)
            && at + |ps[i].key| + |ValBytes(ps[i])| == |PackStr(ps[..i + 1])| <= |h.str|
            && h.str[at..at + |ps[i].key|] == ps[i].key
            && h.str[at + |ps[i].key|..at + |ps[i].key| + |ValBytes(ps[i])|] == ValBytes(ps[i])
            && Off(h.ents, 2 * i) == at
  {
    hide RawEnts, PackStr;
    RawAt(ps, i);
    StrStep(ps, i);
    var h, a, k, v := Pack(ps), PackStr(ps[..i]), ps[i].key, ValBytes(ps[i]);
    var s := PackStr(ps[..i + 1]);
    assert h.str[..|s|] == s == a + k + v;
    assert h.str[|a|..|a| + |k|] == s[|a|..|a| + |k|] == k;
    assert h.str[|a| + |k|..|a| + |k| + |v|] == s[|a| + |k|..|a| + |k| + |v|] == v;
    if i > 0 {
      RawAt(ps, i - 1);
      StrStep(ps, i - 1);
    } else {
      assert ps[..0] == [];
      NothingPacked();
    }
  }

  lemma NothingPacked()
    ensures PackStr([]) == [] && RawEnts([]) == []
  {
  }

  lemma PackedEntryOk(ps: seq<Pair>, k: nat)
    requires k < |ps|
    ensures EntryOk(Pack(ps).ents, 2 * k) && EntryOk(Pack(ps).ents, 2 * k + 1)
  {
    hide RawEnts, PackStr, Pack;
    PackedAt(ps, k);
    PackSize(ps);
    if k + 1 < |ps| { PackedAt(ps, k + 1); }
  }

  lemma PackSize(ps: seq<Pair>)
    ensures |Pack(ps).ents| == 2 * |ps| && Pack(ps).str == PackStr(ps) && (|ps| == 0 ==> PackStr(ps) == [])
  {
  }

  lemma PackWellFormed(ps: seq<Pair>)
    ensures WellFormed(Pack(ps))
  {
    hide RawEnts, PackStr, Pack, EntryOk;
    var h := Pack(ps);
    PackSize(ps);
    forall i | 0 <= i < |h.ents| ensures EntryOk(h.ents, i) {
      PackedEntryOk(ps, i / 2);
      assert i == 2 * (i / 2) || i == 2 * (i / 2) + 1;
    }
    if |ps| > 0 {
      PackedAt(ps, |ps| - 1);
      assert ps[..|ps| - 1 + 1] == ps;
    }
  }

  /** hstorePairs decodes back to exactly the pairs it was given. */
  lemma PackRoundTrip(ps: seq<Pair>)
    ensures WellFormed(Pack(ps)) && Pairs(Pack(ps)) == ps
  {
    hide RawEnts, PackStr, Pack, EntryOk, WellFormed, PairAt;
    PackWellFormed(ps);
    PackSize(ps);
    forall i | 0 <= i < |ps| ensures PairAt(Pack(ps), i) == ps[i] { PackedPair(ps, i); }
  }

  lemma PackedPair(ps: seq<Pair>, i: nat)
    requires WellFormed(Pack(ps)) && i < |ps|
    ensures i < Count(Pack(ps)) && PairAt(Pack(ps), i) == ps[i]
  {
    hide RawEnts, PackStr, Pack;
    PackSize(ps);
    PackedAt(ps, i);
    PackedEntryOk(ps, i);
  }

  /** Where the strings of pair i start. */
  function StartOf(h: HStore, i: nat): (at: nat)
    requires WellFormed(h) && i <= Count(h)
    ensures at <= |h.str| && (i == Count(h) ==> at == |h.str|)
    ensures i < Count(h) ==> EntryOk(h.ents, 2 * i) && at == Off(h.ents, 2 * i)
  {
    if i < Count(h) then assert EntryOk(h.ents, 2 * i); EndsGrow(h, 2 * i, 2 * i); Off(h.ents, 2 * i) else |h.str|
  }

  lemma {:induction false} UnpackedStr(h: HStore, i: nat)
    requires WellFormed(h) && i <= Count(h)
    ensures PackStr(Pairs(h)[..i]) == h.str[..StartOf(h, i)]
  {
    hide PackStr, Pairs, PairAt;
    if i == 0 {
      assert Pairs(h)[..0] == [];
      NothingPacked();
      if |h.ents| > 0 { assert EntryOk(h.ents, 0); }
    } else {
      UnpackedStr(h, i - 1);
      StrStep(Pairs(h), i - 1);
      UnpackedPair(h, i - 1);
      var b := h.ents[2 * (i - 1)].endpos;
      JoinPieces(h.str, StartOf(h, i - 1), b, StartOf(h, i));
    }
  }

  lemma UnpackedPair(h: HStore, k: nat)
    requires WellFormed(h) && k < Count(h)
    ensures var p, b := Pairs(h)[k], h.ents[2 * k].endpos;
            && StartOf(h, k) <= b <= StartOf(h, k + 1) == h.ents[2 * k + 1].endpos
            && p.key == h.str[StartOf(h, k)..b] && ValBytes(p) == h.str[b..StartOf(h, k + 1)]
  {
    assert EntryOk(h.ents, 2 * k) && EntryOk(h.ents, 2 * k + 1);
    EndsGrow(h, 2 * k, 2 * k + 1);
    if k + 1 < Count(h) { assert EntryOk(h.ents, 2 * (k + 1)); }
    assert Pairs(h)[k] == PairAt(h, k);
  }

  lemma JoinPieces(s: bytes, a: nat, b: nat, c: nat)
    requires a <= b <= c <= |s|
    ensures s[..a] + s[a..b] + s[b..c] == s[..c]
  {
  }

  /** Every well-formed value is the packing of its pairs: the layout leaves no freedom. */
  lemma UnpackRoundTrip(h: HStore)
    requires WellFormed(h)
    ensures Pack(Pairs(h)) == h
  {
    hide RawEnts, PackStr, Pack;
    var ps := Pairs(h);
    var g := Pack(ps);
    PackSize(ps);
    UnpackedStr(h, |ps|);
    assert ps[..|ps|] == ps;
    assert h.str[..|h.str|] == h.str;
    forall i | 0 <= i < |h.ents| ensures g.ents[i] == h.ents[i] {
      UnpackedEntries(h, i / 2);
      assert i == 2 * (i / 2) || i == 2 * (i / 2) + 1;
    }
  }

  lemma UnpackedEntries(h: HStore, k: nat)
    requires WellFormed(h) && k < Count(h)
    ensures var g := Pack(Pairs(h));
            |g.ents| == |h.ents| && g.ents[2 * k] == h.ents[2 * k] && g.ents[2 * k + 1] == h.ents[2 * k + 1]
  {
    hide RawEnts, PackStr, Pack;
    PackSize(Pairs(h));
    PackedAt(Pairs(h), k);
    UnpackedStr(h, k);
    UnpackedPair(h, k);
    assert EntryOk(h.ents, 2 * k) && EntryOk(h.ents, 2 * k + 1);
    assert Pairs(h)[k] == PairAt(h, k);
  }

  // ----- the map a value stands for -----

  function MapOf(ps: seq<Pair>): map<bytes, Option<bytes>> {
    if |ps| == 0 then map[] else MapOf(ps[..|ps| - 1])[ps[|ps| - 1].key := ps[|ps| - 1].val]
  }

  function Content(h: HStore): map<bytes, Option<bytes>>
    requires WellFormed(h)
  {
    MapOf(Pairs(h))
  }

  lemma {:induction false} MapHas(ps: seq<Pair>)
    requires Sorted(ps)
    ensures forall i | 0 <= i < |ps| :: ps[i].key in MapOf(ps) && MapOf(ps)[ps[i].key] == ps[i].val
    ensures forall k | k in MapOf(ps) :: exists i :: 0 <= i < |ps| && ps[i].key == k
    decreases |ps|
  {
    if |ps| > 0 {
      var n := |ps| - 1;
      var init := ps[..n];
      MapHas(init);
      forall i | 0 <= i < |ps| ensures ps[i].key in MapOf(ps) && MapOf(ps)[ps[i].key] == ps[i].val {
        if i < n {
          assert init[i] == ps[i];
          assert KeyLess(ps[i].key, ps[n].key);
          KeyIrreflexive(ps[n].key);
        }
      }
      forall k | k in MapOf(ps) ensures exists i :: 0 <= i < |ps| && ps[i].key == k {
        if k != ps[n].key {
          var i :| 0 <= i < |init| && init[i].key == k;
          assert ps[i].key == k;
        }
      }
    }
  }

  /** Sorted pairs are determined by their map. */
  lemma {:induction false} SortedUnique(p: seq<Pair>, q: seq<Pair>)
    requires Sorted(p) && Sorted(q) && MapOf(p) == MapOf(q)
    ensures p == q
    decreases |p|
  {
    hide MapOf;
    MapHas(p);
    MapHas(q);
    if |p| == 0 {
      assert p == [];
      MapNone();
      EmptyMap(q);
    } else {
      var n, m := |p| - 1, |q| - 1;
      assert p[n].key in MapOf(q);
      LastKeys(p, q);
      var p', q' := p[..n], q[..m];
      assert p == p' + [p[n]] && q == q' + [q[m]];
      DropLast(p);
      DropLast(q);
      SortedUnique(p', q');
    }
  }

  lemma EmptyMap(q: seq<Pair>)
    ensures |q| > 0 ==> MapOf(q) != map[]
  {
    if |q| > 0 { assert q[|q| - 1].key in MapOf(q); }
  }

  lemma MapNone()
    ensures MapOf([]) == map[]
  {
  }

  lemma LastKeys(p: seq<Pair>, q: seq<Pair>)
    requires Sorted(p) && Sorted(q) && MapOf(p) == MapOf(q) && |p| > 0
    ensures |q| > 0 && p[|p| - 1] == q[|q| - 1]
  {
    MapHas(p);
    MapHas(q);
    var a := p[|p| - 1].key;
    var j :| 0 <= j < |q| && q[j].key == a;
    var b := q[|q| - 1].key;
    var i :| 0 <= i < |p| && p[i].key == b;
    if i < |p| - 1 && j < |q| - 1 {
      assert KeyLess(b, a) && KeyLess(a, b);
      KeyTrans(a, b, a);
      KeyIrreflexive(a);
    }
    KeyCmpAnti(a, b);
    assert p[|p| - 1].val == MapOf(p)[a] && q[|q| - 1].val == MapOf(q)[b];
    if i == |p| - 1 || j == |q| - 1 { assert a == b; }
  }

  lemma MapStep(p: seq<Pair>)
    requires |p| > 0
    ensures MapOf(p) == MapOf(p[..|p| - 1])[p[|p| - 1].key := p[|p| - 1].val]
  {
  }

  lemma DropLast(p: seq<Pair>)
    requires Sorted(p) && |p| > 0
    ensures Sorted(p[..|p| - 1]) && MapOf(p[..|p| - 1]) == MapOf(p) - {p[|p| - 1].key}
  {
    hide MapOf;
    var init, last := p[..|p| - 1], p[|p| - 1];
    MapStep(p);
    MapHas(init);
    forall k | k in MapOf(init) ensures k != last.key {
      var i :| 0 <= i < |init| && init[i].key == k;
      assert KeyLess(p[i].key, last.key);
      KeyIrreflexive(k);
    }
    UpdateRemove(MapOf(init), last.key, last.val);
  }

  lemma UpdateRemove<K, V>(m: map<K, V>, k: K, v: V)
    requires k !in m
    ensures m[k := v] - {k} == m
  {
  }

  /** Canonical values with the same content are the same value, byte for byte. */
  lemma CanonicalUnique(g: HStore, h: HStore)
    requires Canonical(g) && Canonical(h) && Content(g) == Content(h)
    ensures g == h
  {
    SortedUnique(Pairs(g), Pairs(h));
    UnpackRoundTrip(g);
    UnpackRoundTrip(h);
  }
}
