/** hstore_in, and the proof that it reads back what hstore_out prints. */
module HStoreRoundTrip {
  import opened Bytes
  import opened Common
  import opened HStoreFormat
  import opened HStorePairs
  import opened HStorePrint
  import opened HStoreText
  import opened HStoreWriting

  datatype Result = Success(value: HStore) | Failure(error: Error)

  /** One of the raw pairs has this key and value. */
  predicate Listed(rs: seq<Raw>, p: Pair) { exists i :: 0 <= i < |rs| && rs[i].key == p.key && rs[i].val == p.val }

  /** What hstore_in promises for a text: its error, or a canonical value with every key that was
      listed, each with one of the values listed for it, and nothing else. */
  predicate InputResult(t: bytes, r: Result) {
    match Items(t, 0)
    case Err(e) => r == Failure(e)
    case Ok(rs) =>
      r.Success? && StoresPairs(rs, r.value)
  }

  predicate StoresPairs(rs: seq<Raw>, h: HStore) {
    && Canonical(h) && (forall p | p in Pairs(h) :: Listed(rs, p))
    && (forall x | x in rs :: x.key in Content(h))
  }

  /** hstore_in */
  method HStoreIn(text: bytes) returns (r: Result)
    requires 0 !in text
    ensures InputResult(text, r)
    ensures r.Success? <==> exists rs :: Writes(text, rs)
    ensures forall rs | Writes(text, rs) :: r.Success? && StoresPairs(rs, r.value)
  {
    forall rs ensures Items(text, 0) == Ok(rs) <==> Writes(text, rs) { ParsedIff(text, rs); }
    hide Writes, Increasing, Kept, Plain, WellFormed, Pairs, MapOf, Items;
    var state := new Parser(text);
    var err := state.ParseHStore();
    if err != None { return Failure(err.value); }
    var rs, pcur := state.pairs, |state.pairs|;
    var a := new Raw[pcur](i requires 0 <= i < pcur => rs[i]);
    assert a[..pcur] == rs;
    var n, buflen := HStoreUniquePairs(a, pcur);
    PackedUnique(a[..n], rs);
    var out := HStoreFromPairs(a[..n], buflen);
    r := Success(out);
  }

  lemma PackedUnique(u: seq<Raw>, rs: seq<Raw>)
    requires Increasing(u) && (forall x | x in u :: x in rs) && (forall x | x in rs :: Kept(u, x))
    ensures var h := Pack(Plain(u));
            && Canonical(h) && (forall p | p in Pairs(h) :: Listed(rs, p))
            && (forall x | x in rs :: x.key in Content(h))
  {
    hide Pack, MapOf, Pairs, WellFormed, Kept, Increasing;
    PackRoundTrip(Plain(u));
    SameKeys(u, rs);
    forall p | p in Plain(u) ensures Listed(rs, p) {
      var i :| 0 <= i < |u| && Plain(u)[i] == p;
      assert u[i] in rs;
    }
    forall x | x in rs ensures x.key in MapOf(Plain(u)) { assert x.key in KeysIn(rs); }
  }

  // ----- reading printed text -----

  /** s stands at p in t. */
  predicate Stands(t: bytes, p: nat, s: bytes) { p + |s| <= |t| && t[p..p + |s|] == s }

  lemma StandsApart(t: bytes, p: nat, a: bytes, b: bytes)
    requires Stands(t, p, a + b)
    ensures p + |a| + |b| <= |t| && Stands(t, p, a) && Stands(t, p + |a|, b)
  {
    assert t[p..p + |a|] == (a + b)[..|a|];
    assert t[p + |a|..p + |a| + |b|] == (a + b)[|a|..];
  }

  lemma StandsByte(t: bytes, p: nat, c: byte)
    requires Stands(t, p, [c])
    ensures p < |t| && t[p] == c
  {
    assert t[p..p + 1][0] == c;
  }

  lemma ByteReads(t: bytes, p: nat, c: byte)
    requires Stands(t, p, EscapedByte(c))
    ensures Quoted(t, p) == Cons(c, Quoted(t, p + |EscapedByte(c)|))
  {
    var e := EscapedByte(c);
    assert t[p..p + |e|][0] == e[0] && t[p..p + |e|][|e| - 1] == c;
  }

  /** Reading undoes escaping. */
  lemma {:induction false} EscapedReads(t: bytes, p: nat, w: bytes)
    requires Stands(t, p, Escaped(w) + [QUOTE])
    ensures Quoted(t, p) == Some(Word(w, p + |Escaped(w)| + 1))
    decreases |w|
  {
    hide Quoted, EscapedByte, Stands;
    if |w| == 0 {
      assert Escaped(w) + [QUOTE] == [QUOTE];
      QuoteCloses(t, p);
    } else {
      var e := EscapedByte(w[0]);
      assert Escaped(w) + [QUOTE] == e + (Escaped(w[1..]) + [QUOTE]);
      StandsApart(t, p, e, Escaped(w[1..]) + [QUOTE]);
      ByteReads(t, p, w[0]);
      EscapedReads(t, p + |e|, w[1..]);
      assert w == [w[0]] + w[1..];
    }
  }

  lemma QuoteCloses(t: bytes, p: nat)
    requires Stands(t, p, [QUOTE])
    ensures p < |t| && Quoted(t, p) == Some(Word([], p + 1))
  {
    StandsByte(t, p, QUOTE);
  }

  lemma QuotedReads(t: bytes, p: nat, w: bytes, ignoreeq: bool)
    requires Stands(t, p, QuotedText(w))
    ensures ValueAt(t, p, ignoreeq) == Got(w, p + |QuotedText(w)|, true)
  {
    assert QuotedText(w) == [QUOTE] + (Escaped(w) + [QUOTE]);
    StandsApart(t, p, [QUOTE], Escaped(w) + [QUOTE]);
    StandsByte(t, p, QUOTE);
    EscapedReads(t, p + 1, w);
  }

  lemma NullReads(t: bytes, p: nat)
    requires Stands(t, p, NULL_TEXT) && (p + 4 == |t| || t[p + 4] == COMMA)
    ensures ValueAt(t, p, true) == Got(NULL_TEXT, p + 4, false) && SpellsNull(NULL_TEXT)
  {
    forall i | 0 <= i < 4 ensures t[p + i] == NULL_TEXT[i] { assert t[p..p + 4][i] == NULL_TEXT[i]; }
    assert Bare(t, p + 4, true) == Some(Word([], p + 4));
    Letter(t, p + 3, [], p + 4);
    Letter(t, p + 2, [76], p + 4);
    Letter(t, p + 1, [76, 76], p + 4);
    assert [78] + [85, 76, 76] == NULL_TEXT;
  }

  lemma Letter(t: bytes, p: nat, w: bytes, next: nat)
    requires p < |t| && 65 <= t[p] <= 90 && Bare(t, p + 1, true) == Some(Word(w, next))
    ensures Bare(t, p, true) == Some(Word([t[p]] + w, next))
    ensures |w| <= 2 ==> [t[p]] + w == if |w| == 0 then [t[p]]
                                   else if |w| == 1 then [t[p], w[0]] else [t[p], w[0], w[1]]
  {
  }

  lemma ArrowReads(t: bytes, p: nat)
    requires Stands(t, p, [EQUALS, GREATER])
    ensures Arrow(t, p) == At(p + 2)
  {
    assert t[p..p + 2][0] == EQUALS && t[p..p + 2][1] == GREATER;
  }

  function RawOf(p: Pair): Raw { Raw(p.key, p.val, true) }

  predicate Storable(p: Pair) { |p.key| <= MAX_LEN && (p.val.Some? ==> |p.val.value| <= MAX_LEN) }

  /** A printed pair is read as that pair: a quoted NULL as a string, a bare one as a null. */
  lemma PairReads(t: bytes, p: nat, pair: Pair)
    requires Stands(t, p, PairText(pair)) && Storable(pair)
    requires var q := p + |PairText(pair)|; q == |t| || t[q] == COMMA
    ensures var q := p + |PairText(pair)|;
            Items(t, p) == Before([RawOf(pair)], FromDelimiter(t, Delimiter(t, q)))
  {
    hide Escaped, ValueAt, Items, FromArrow, FromValue, FromDelimiter, Arrow, Delimiter, Stands, QuotedText;
    var k, v := QuotedText(pair.key), ValText(pair.val);
    assert PairText(pair) == k + ([EQUALS, GREATER] + v);
    StandsApart(t, p, k, [EQUALS, GREATER] + v);
    StandsApart(t, p + |k|, [EQUALS, GREATER], v);
    QuotedReads(t, p, pair.key, false);
    ArrowReads(t, p + |k|);
    if pair.val.None? { NullReads(t, p + |k| + 2); } else { QuotedReads(t, p + |k| + 2, pair.val.value, true); }
    ItemsStep(t, p, p + |k|, p + |k| + 2, p + |PairText(pair)|, pair);
  }

  lemma ItemsStep(t: bytes, p: nat, a: nat, b: nat, c: nat, pair: Pair)
    requires p <= a <= b <= c <= |t| && Storable(pair)
    requires ValueAt(t, p, false) == Got(pair.key, a, true) && Arrow(t, a) == At(b)
    requires ValueAt(t, b, true) == if pair.val.None? then Got(NULL_TEXT, c, false) else Got(pair.val.value, c, true)
    ensures Items(t, p) == Before([RawOf(pair)], FromDelimiter(t, Delimiter(t, c)))
  {
    assert SpellsNull(NULL_TEXT);
    assert FromValue(t, pair.key, b) == Before([RawOf(pair)], FromDelimiter(t, Delimiter(t, c)));
  }

  lemma TextStep(ps: seq<Pair>, n: nat)
    requires n < |ps|
    ensures TextTo(ps, n + 1) == TextTo(ps, n) + PairText(ps[n]) + Separator(ps, n + 1)
  {
  }

  lemma {:induction false} TextPrefix(ps: seq<Pair>, n: nat, m: nat)
    requires n <= m <= |ps|
    ensures Prefix(TextTo(ps, n), TextTo(ps, m))
    decreases m
  {
    hide TextTo, PairText, Separator;
    if n < m {
      TextPrefix(ps, n, m - 1);
      TextStep(ps, m - 1);
      var a, b := TextTo(ps, m - 1), PairText(ps[m - 1]) + Separator(ps, m);
      assert TextTo(ps, m) == a + b;
      assert (a + b)[..|TextTo(ps, n)|] == a[..|TextTo(ps, n)|];
    }
  }

  /** Where pair i stands in the text and what follows it. */
  lemma PairStands(ps: seq<Pair>, i: nat)
    requires i < |ps|
    ensures var t, p := Text(ps), |TextTo(ps, i)|;
            var q := p + |PairText(ps[i])|;
            && Stands(t, p, PairText(ps[i]))
            && (if i + 1 == |ps| then q == |t|
                else q + 2 == |TextTo(ps, i + 1)| <= |t| && t[q] == COMMA && t[q + 1] == SPACE)
  {
    hide PairText, TextTo;
    TextPrefix(ps, i + 1, |ps|);
    TextStep(ps, i);
    var t, a, b := Text(ps), TextTo(ps, i), PairText(ps[i]);
    var c := Separator(ps, i + 1);
    assert (a + b + c)[|a|..|a| + |b|] == b;
    assert t[|a|..|a| + |b|] == t[..|a + b + c|][|a|..|a| + |b|];
    if i + 1 < |ps| {
      assert t[|a| + |b|] == (a + b + c)[|a| + |b|] == c[0];
      assert t[|a| + |b| + 1] == (a + b + c)[|a| + |b| + 1] == c[1];
    }
  }

  function RawsFrom(ps: seq<Pair>, i: nat): seq<Raw>
    requires i <= |ps|
    decreases |ps| - i
  {
    if i == |ps| then [] else [RawOf(ps[i])] + RawsFrom(ps, i + 1)
  }

  lemma {:induction false} TextReads(ps: seq<Pair>, i: nat)
    requires i < |ps| && forall p | p in ps :: Storable(p)
    ensures |TextTo(ps, i)| <= |Text(ps)| && Items(Text(ps), |TextTo(ps, i)|) == Ok(RawsFrom(ps, i))
    decreases |ps| - i
  {
    hide PairText, Items, ValueAt, Text, TextTo;
    var t, p := Text(ps), |TextTo(ps, i)|;
    PairStands(ps, i);
    PairReads(t, p, ps[i]);
    if i + 1 < |ps| {
      TextReads(ps, i + 1);
      SpacePassed(t, |TextTo(ps, i + 1)| - 1);
    } else {
      assert RawsFrom(ps, i + 1) == [];
    }
  }

  lemma SpacePassed(t: bytes, p: nat)
    requires p < |t| && t[p] == SPACE
    ensures Items(t, p) == Items(t, p + 1)
  {
    assert ValueAt(t, p, false) == ValueAt(t, p + 1, false);
  }

  lemma {:induction false} RawsAt(ps: seq<Pair>, i: nat, k: nat)
    requires i <= k < |ps|
    ensures |RawsFrom(ps, i)| == |ps| - i && RawsFrom(ps, i)[k - i] == RawOf(ps[k])
    decreases |ps| - i
  {
    if i < k { RawsAt(ps, i + 1, k); } else { RawsSize(ps, i); }
  }

  lemma {:induction false} RawsSize(ps: seq<Pair>, i: nat)
    requires i <= |ps|
    ensures |RawsFrom(ps, i)| == |ps| - i
    decreases |ps| - i
  {
    if i < |ps| { RawsSize(ps, i + 1); }
  }

  /** Whatever hstore_in makes of a printed value, within its promise, is that value. */
  lemma ReadBack(h: HStore, r: Result)
    requires Canonical(h) && |h.str| <= MAX_LEN && InputResult(Text(Pairs(h)), r)
    ensures r == Success(h)
  {
    hide PairAt, MapOf, Items, TextTo, RawsFrom, WellFormed, Sorted, Pairs;
    var ps := Pairs(h);
    var rs := RawsFrom(ps, 0);
    TextOf(h);
    var g := r.value;
    MapHas(ps);
    MapHas(Pairs(g));
    RawsSize(ps, 0);
    forall k | k in Content(g) ensures k in Content(h) && Content(h)[k] == Content(g)[k] {
      var i :| 0 <= i < |Pairs(g)| && Pairs(g)[i].key == k;
      assert Pairs(g)[i] in Pairs(g);
      var j :| 0 <= j < |rs| && rs[j].key == k && rs[j].val == Pairs(g)[i].val;
      RawsAt(ps, 0, j);
    }
    forall k | k in Content(h) ensures k in Content(g) {
      var i :| 0 <= i < |ps| && ps[i].key == k;
      RawsAt(ps, 0, i);
      assert rs[i] in rs;
    }
    assert Content(g) == Content(h);
    CanonicalUnique(g, h);
  }

  lemma TextOf(h: HStore)
    requires WellFormed(h) && |h.str| <= MAX_LEN
    ensures Items(Text(Pairs(h)), 0) == Ok(RawsFrom(Pairs(h), 0))
  {
    hide Items;
    var ps := Pairs(h);
    forall p | p in ps ensures Storable(p) {
      var i :| 0 <= i < |ps| && ps[i] == p;
      UnpackedPair(h, i);
    }
    if |ps| == 0 { NoItems(ps); } else { TextReads(ps, 0); }
  }

  lemma NoItems(ps: seq<Pair>)
    requires |ps| == 0
    ensures Text(ps) == [] && Items([], 0) == Ok([]) && RawsFrom(ps, 0) == []
  {
  }

  // ----- no zero bytes -----

  lemma {:induction false} EscapedNonZero(w: bytes)
    requires 0 !in w
    ensures 0 !in Escaped(w)
    decreases |w|
  {
    if |w| > 0 { EscapedNonZero(w[1..]); }
  }

  lemma {:induction false} TextNonZero(ps: seq<Pair>, n: nat)
    requires n <= |ps| && forall p | p in ps :: 0 !in p.key && 0 !in ValBytes(p)
    ensures 0 !in TextTo(ps, n)
  {
    hide TextTo, PairText;
    if n == 0 {
      NoText(ps);
    } else {
      TextNonZero(ps, n - 1);
      TextStep(ps, n - 1);
      PairNonZero(ps[n - 1]);
    }
  }

  lemma PairNonZero(p: Pair)
    requires 0 !in p.key && 0 !in ValBytes(p)
    ensures 0 !in PairText(p)
  {
    hide Escaped;
    EscapedNonZero(p.key);
    EscapedNonZero(ValBytes(p));
  }

  lemma NoText(ps: seq<Pair>)
    ensures TextTo(ps, 0) == []
  {
  }

  /** hstore_out followed by hstore_in is the identity on canonical values without zero bytes. */
  method OutThenIn(h: HStore) returns (r: Result)
    requires Canonical(h) && |h.str| <= MAX_LEN && 0 !in h.str
    ensures r == Success(h)
  {
    hide PairText, WellFormed, Pairs, Sorted;
    var text := HStoreOut(h);
    PiecesNonZero(h);
    TextNonZero(Pairs(h), |Pairs(h)|);
    r := HStoreIn(text);
    ReadBack(h, r);
  }

  lemma PiecesNonZero(h: HStore)
    requires WellFormed(h) && 0 !in h.str
    ensures forall p | p in Pairs(h) :: 0 !in p.key && 0 !in ValBytes(p)
  {
    forall p | p in Pairs(h) ensures 0 !in p.key && 0 !in ValBytes(p) {
      var i :| 0 <= i < |Pairs(h)| && Pairs(h)[i] == p;
      UnpackedPair(h, i);
    }
  }
}
