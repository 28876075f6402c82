/** Signatures of rows and of searches, and the scan that compares them word by word. */
module BloomSignature {
  import opened BloomRandom
  import opened BloomPage
  import opened Common

  const SIGNWORDBITS := 16
  const INDEX_MAX_KEYS := 32

  /** A column value as its hash function sees it. */
  type Datum = int

  /** The options of an index with its hash functions. A state of 0 in the generator makes every draw
      -1, and C does not define a shift by -1: `stray` is the word that SETBIT then ORs into the first. */
  datatype BloomState = BloomState(bloomLength: nat, bitSize: seq<nat>, hash: (nat, Datum) -> bv32, stray: bv16)

  predicate Usable(st: BloomState) {
    1 <= st.bloomLength <= 256 && |st.bitSize| <= INDEX_MAX_KEYS
  }

  function NumBits(st: BloomState): nat { st.bloomLength * SIGNWORDBITS }

  // ----- bits of words -----

  function Mask(k: nat): bv16
    requires k < 16
  {
    match k
    case 0 => 0x0001 case 1 => 0x0002 case 2 => 0x0004 case 3 => 0x0008
    case 4 => 0x0010 case 5 => 0x0020 case 6 => 0x0040 case 7 => 0x0080
    case 8 => 0x0100 case 9 => 0x0200 case 10 => 0x0400 case 11 => 0x0800
    case 12 => 0x1000 case 13 => 0x2000 case 14 => 0x4000 case _ => 0x8000
  }

  predicate Meets(w: bv16, m: bv16) { w & m != 0 }

  predicate WordBit(w: bv16, k: nat)
    requires k < 16
  {
    Meets(w, Mask(k))
  }

  predicate GetBit(s: seq<bv16>, b: nat)
    requires b < 16 * |s|
  {
    WordBit(s[b / 16], b % 16)
  }

  function Or(a: bv16, b: bv16): bv16 { a | b }

  lemma OrDistributes(a: bv16, b: bv16, m: bv16)
    ensures (a | b) & m == (a & m) | (b & m)
  {
  }

  lemma OrZero(a: bv16, b: bv16)
    ensures a | b == 0 <==> a == 0 && b == 0
  {
  }

  lemma OrMeets(a: bv16, b: bv16, m: bv16)
    ensures Meets(a | b, m) <==> Meets(a, m) || Meets(b, m)
  {
    OrDistributes(a, b, m);
    OrZero(a & m, b & m);
  }

  lemma OrBits(a: bv16, b: bv16, k: nat)
    requires k < 16
    ensures WordBit(Or(a, b), k) <==> WordBit(a, k) || WordBit(b, k)
  {
    hide Mask, Meets;
    OrMeets(a, b, Mask(k));
  }

  lemma MaskBits(j: nat, k: nat)
    requires j < 16 && k < 16
    ensures WordBit(Mask(j), k) <==> j == k
    ensures !WordBit(0, k)
  {
  }

  predicate Includes(a: bv16, b: bv16) { a & b == b }

  /** The word test of the scan is inclusion of bits. */
  lemma WordTest(a: bv16, b: bv16)
    ensures Includes(a, b) <==> forall k: nat | k < 16 :: WordBit(b, k) ==> WordBit(a, k)
  {
    if a & b == b {
      forall k: nat | k < 16 && WordBit(b, k) ensures WordBit(a, k) { KeptBit(a, b, Mask(k)); }
    }
    if forall k: nat | k < 16 :: WordBit(b, k) ==> WordBit(a, k) { AllBits(a, b); }
  }

  lemma KeptBit(a: bv16, b: bv16, m: bv16)
    requires a & b == b && b & m != 0
    ensures a & m != 0
  {
  }

  lemma AllBits(a: bv16, b: bv16)
    requires forall k: nat | k < 16 :: WordBit(b, k) ==> WordBit(a, k)
    ensures a & b == b
  {
    forall k: nat | k < 16 ensures Meets(b, Mask(k)) ==> Meets(a, Mask(k)) {
      assert WordBit(b, k) ==> WordBit(a, k);
    }
    hide WordBit;
    assert Meets(b, Mask(0)) ==> Meets(a, Mask(0));
    assert Meets(b, Mask(1)) ==> Meets(a, Mask(1));
    assert Meets(b, Mask(2)) ==> Meets(a, Mask(2));
    assert Meets(b, Mask(3)) ==> Meets(a, Mask(3));
    assert Meets(b, Mask(4)) ==> Meets(a, Mask(4));
    assert Meets(b, Mask(5)) ==> Meets(a, Mask(5));
    assert Meets(b, Mask(6)) ==> Meets(a, Mask(6));
    assert Meets(b, Mask(7)) ==> Meets(a, Mask(7));
    assert Meets(b, Mask(8)) ==> Meets(a, Mask(8));
    assert Meets(b, Mask(9)) ==> Meets(a, Mask(9));
    assert Meets(b, Mask(10)) ==> Meets(a, Mask(10));
    assert Meets(b, Mask(11)) ==> Meets(a, Mask(11));
    assert Meets(b, Mask(12)) ==> Meets(a, Mask(12));
    assert Meets(b, Mask(13)) ==> Meets(a, Mask(13));
    assert Meets(b, Mask(14)) ==> Meets(a, Mask(14));
    assert Meets(b, Mask(15)) ==> Meets(a, Mask(15));
    EveryBit(a, b);
  }

  lemma EveryBit(a: bv16, b: bv16)
    requires b & 0x0001 != 0 ==> a & 0x0001 != 0
    requires b & 0x0002 != 0 ==> a & 0x0002 != 0
    requires b & 0x0004 != 0 ==> a & 0x0004 != 0
    requires b & 0x0008 != 0 ==> a & 0x0008 != 0
    requires b & 0x0010 != 0 ==> a & 0x0010 != 0
    requires b & 0x0020 != 0 ==> a & 0x0020 != 0
    requires b & 0x0040 != 0 ==> a & 0x0040 != 0
    requires b & 0x0080 != 0 ==> a & 0x0080 != 0
    requires b & 0x0100 != 0 ==> a & 0x0100 != 0
    requires b & 0x0200 != 0 ==> a & 0x0200 != 0
    requires b & 0x0400 != 0 ==> a & 0x0400 != 0
    requires b & 0x0800 != 0 ==> a & 0x0800 != 0
    requires b & 0x1000 != 0 ==> a & 0x1000 != 0
    requires b & 0x2000 != 0 ==> a & 0x2000 != 0
    requires b & 0x4000 != 0 ==> a & 0x4000 != 0
    requires b & 0x8000 != 0 ==> a & 0x8000 != 0
    ensures a & b == b
  {
  }

  // ----- signing -----

  function Unsigned(w: bv32): uint32 { w as int }

  function Word(n: uint32): bv32 { n as bv32 }

  function Xor(a: bv32, b: bv32): bv32 { a ^ b }

  function Mix(hashVal: bv32, r: int): uint32
    requires 0 <= r < 0x8000_0000
  {
    Unsigned(Xor(hashVal, Word(r)))
  }

  function SeedOf(st: BloomState, value: Datum, attno: nat): uint32
    requires attno < INDEX_MAX_KEYS
  {
    var r := Draw(attno, 0);
    DrawsInRange(attno, 0);
    Mix(st.hash(attno, value), r)
  }

  /** In one column, values have the same seed exactly if they have the same hash value. */
  lemma SeedsDiffer(st: BloomState, value: Datum, other: Datum, attno: nat)
    requires attno < INDEX_MAX_KEYS
    ensures SeedOf(st, value, attno) == SeedOf(st, other, attno) <==> st.hash(attno, value) == st.hash(attno, other)
  {
    var r := Draw(attno, 0);
    DrawsInRange(attno, 0);
    MixInjective(st.hash(attno, value), st.hash(attno, other), r);
  }

  lemma MixInjective(a: bv32, b: bv32, r: int)
    requires 0 <= r < 0x8000_0000
    ensures Mix(a, r) == Mix(b, r) <==> a == b
  {
    hide Unsigned, Word, Xor;
    BackAndForth(Xor(a, Word(r)));
    BackAndForth(Xor(b, Word(r)));
    XorTwice(a, Word(r));
    XorTwice(b, Word(r));
  }

  lemma BackAndForth(w: bv32)
    ensures Word(Unsigned(w)) == w
  {
  }

  lemma XorTwice(a: bv32, m: bv32)
    ensures Xor(Xor(a, m), m) == a
  {
  }

  /** SETBIT sets bit b for this draw. */
  predicate Hit(st: BloomState, draw: int, b: nat)
    requires Usable(st)
  {
    if draw < 0 then b < 16 && WordBit(st.stray, b) else draw % NumBits(st) == b
  }

  /** One of the first n draws for the value sets bit b. */
  ghost predicate HitBy(st: BloomState, value: Datum, attno: nat, n: nat, b: nat)
    requires Usable(st) && attno < INDEX_MAX_KEYS
  {
    exists j: nat :: j < n && Hit(st, Draw(SeedOf(st, value, attno), j), b)
  }

  /** The bits of a value in a column. */
  ghost predicate ValueBit(st: BloomState, value: Datum, attno: nat, b: nat)
    requires Usable(st) && attno < |st.bitSize|
  {
    HitBy(st, value, attno, st.bitSize[attno], b)
  }

  lemma HitByStep(st: BloomState, value: Datum, attno: nat, n: nat, b: nat)
    requires Usable(st) && attno < INDEX_MAX_KEYS
    ensures HitBy(st, value, attno, n + 1, b) <==>
            HitBy(st, value, attno, n, b) || Hit(st, Draw(SeedOf(st, value, attno), n), b)
  {
    if Hit(st, Draw(SeedOf(st, value, attno), n), b) { assert HitBy(st, value, attno, n + 1, b); }
  }

  lemma OrIntoWord(was: seq<bv16>, now: seq<bv16>, i: nat, m: bv16)
    requires i < |was| && now == was[i := Or(was[i], m)]
    ensures forall b: nat | b < 16 * |was| :: GetBit(now, b) <==> GetBit(was, b) || (b / 16 == i && WordBit(m, b % 16))
  {
    hide WordBit, Or;
    forall b: nat | b < 16 * |was| ensures GetBit(now, b) <==> GetBit(was, b) || (b / 16 == i && WordBit(m, b % 16)) {
      if b / 16 == i { OrBits(was[i], m, b % 16); }
    }
  }

  lemma BitNumber(draw: int, n: nat)
    requires draw >= -1 && n >= 16
    ensures if draw < 0 then Rem(draw, n) == -1 else 0 <= Rem(draw, n) == draw % n < n
  {
    assert Div(-1, n) == 0;
  }

  lemma OneBit(st: BloomState, was: seq<bv16>, now: seq<bv16>, draw: int)
    requires Usable(st) && |was| == st.bloomLength && draw >= 0
    requires var nBit := draw % NumBits(st); now == was[nBit / 16 := Or(was[nBit / 16], Mask(nBit % 16))]
    ensures forall b: nat | b < NumBits(st) :: GetBit(now, b) <==> GetBit(was, b) || Hit(st, draw, b)
  {
    hide WordBit, Mask, GetBit, Or;
    var nBit := draw % NumBits(st);
    OrIntoWord(was, now, nBit / 16, Mask(nBit % 16));
    forall b: nat | b < NumBits(st) ensures b / 16 == nBit / 16 && WordBit(Mask(nBit % 16), b % 16) <==> nBit == b {
      MaskBits(nBit % 16, b % 16);
    }
  }

  lemma StrayBits(st: BloomState, was: seq<bv16>, now: seq<bv16>)
    requires Usable(st) && |was| == st.bloomLength && now == was[0 := Or(was[0], st.stray)]
    ensures forall b: nat | b < NumBits(st) :: GetBit(now, b) <==> GetBit(was, b) || Hit(st, -1, b)
  {
    hide WordBit, GetBit, Or;
    OrIntoWord(was, now, 0, st.stray);
  }

  /** SETBIT */
  method SetBit(st: BloomState, sign: array<bv16>, draw: int32)
    requires Usable(st) && sign.Length == st.bloomLength && draw >= -1
    modifies sign
    ensures forall b: nat | b < NumBits(st) ::
              GetBit(sign[..], b) <==> GetBit(old(sign[..]), b) || Hit(st, draw as int, b)
  {
    hide Mask, GetBit, Rem, Hit, Or;
    BitNumber(draw as int, NumBits(st));
    var nBit := Rem(draw as int, NumBits(st));
    if nBit < 0 {
      sign[0] := Or(sign[0], st.stray);
      StrayBits(st, old(sign[..]), sign[..]);
    } else {
      sign[nBit / SIGNWORDBITS] := Or(sign[nBit / SIGNWORDBITS], Mask(nBit % SIGNWORDBITS));
      OneBit(st, old(sign[..]), sign[..], draw as int);
    }
  }

  /** signValue: adds exactly the bits of the value. */
  method SignValue(st: BloomState, gen: Generator, sign: array<bv16>, value: Datum, attno: nat)
    requires Usable(st) && attno < |st.bitSize| && sign.Length == st.bloomLength
    modifies gen, sign
    ensures forall b: nat | b < NumBits(st) ::
              GetBit(sign[..], b) <==> GetBit(old(sign[..]), b) || ValueBit(st, value, attno, b)
  {
    hide GetBit, HitBy, Seeded;
    Reseed(st, gen, value, attno);
    ghost var was := sign[..];
    NoHits(st, value, attno);
    for j := 0 to st.bitSize[attno]
      invariant gen.next as int == StateAfter(Seeded(SeedOf(st, value, attno)), j)
      invariant forall b: nat | b < NumBits(st) ::
                  GetBit(sign[..], b) <==> GetBit(was, b) || HitBy(st, value, attno, j, b)
    {
      SignBit(st, gen, sign, value, attno, j);
    }
  }

  /** The two seedings of signValue: by the column number, then by the hash mixed with one draw. */
  method Reseed(st: BloomState, gen: Generator, value: Datum, attno: nat)
    requires attno < INDEX_MAX_KEYS
    modifies gen
    ensures gen.next as int == StateAfter(Seeded(SeedOf(st, value, attno)), 0)
  {
    hide Seeded, NextState, Mix;
    gen.MySrand(attno);
    var hashVal := st.hash(attno, value);
    var r := gen.MyRand();
    FirstDraw(attno);
    SeedIs(st, value, attno);
    gen.MySrand(Mix(hashVal, r as int));
  }

  method SignBit(st: BloomState, gen: Generator, sign: array<bv16>, value: Datum, attno: nat, ghost j: nat)
    requires Usable(st) && attno < INDEX_MAX_KEYS && sign.Length == st.bloomLength
    requires gen.next as int == StateAfter(Seeded(SeedOf(st, value, attno)), j)
    modifies gen, sign
    ensures gen.next as int == StateAfter(Seeded(SeedOf(st, value, attno)), j + 1)
    ensures forall b: nat | b < NumBits(st) ::
              GetBit(sign[..], b) <==> GetBit(old(sign[..]), b) || Hit(st, Draw(SeedOf(st, value, attno), j), b)
    ensures forall b: nat | b < NumBits(st) ::
              HitBy(st, value, attno, j + 1, b) <==>
              HitBy(st, value, attno, j, b) || Hit(st, Draw(SeedOf(st, value, attno), j), b)
  {
    hide GetBit, HitBy, Hit, Seeded, SeedOf, NextState;
    var draw := gen.MyRand();
    DrawsInRange(SeedOf(st, value, attno), j);
    SetBit(st, sign, draw);
    forall b: nat | b < NumBits(st)
      ensures HitBy(st, value, attno, j + 1, b) <==> HitBy(st, value, attno, j, b) || Hit(st, draw as int, b)
    {
      HitByStep(st, value, attno, j, b);
    }
  }

  lemma FirstDraw(attno: uint32)
    ensures Draw(attno, 0) == NextState(Seeded(attno)) - 1
  {
    assert StateAfter(Seeded(attno), 0) == Seeded(attno);
  }

  lemma SeedIs(st: BloomState, value: Datum, attno: nat)
    requires attno < INDEX_MAX_KEYS
    ensures 0 <= Draw(attno, 0) < 0x8000_0000
    ensures SeedOf(st, value, attno) == Mix(st.hash(attno, value), Draw(attno, 0))
  {
    hide Mix;
    DrawsInRange(attno, 0);
  }

  lemma NoHits(st: BloomState, value: Datum, attno: nat)
    requires Usable(st) && attno < INDEX_MAX_KEYS
    ensures forall b: nat :: !HitBy(st, value, attno, 0, b)
  {
  }

  // ----- rows -----

  type Row = seq<Option<Datum>>

  /** Bit b of a row: some column with a value, among the first n, has it. */
  ghost predicate RowBit(st: BloomState, row: Row, n: nat, b: nat)
    requires Usable(st) && n <= |row| <= |st.bitSize|
  {
    exists c: nat :: c < n && row[c].Some? && ValueBit(st, row[c].value, c, b)
  }

  ghost predicate SignsRow(st: BloomState, row: Row, sign: seq<bv16>)
    requires Usable(st) && |row| <= |st.bitSize|
  {
    |sign| == st.bloomLength && forall b: nat | b < NumBits(st) :: GetBit(sign, b) <==> RowBit(st, row, |row|, b)
  }

  method EmptySign(st: BloomState) returns (sign: array<bv16>)
    requires Usable(st)
    ensures fresh(sign) && sign.Length == st.bloomLength && forall b: nat | b < NumBits(st) :: !GetBit(sign[..], b)
  {
    sign := new bv16[st.bloomLength](_ => 0);
    forall b: nat | b < NumBits(st) ensures !GetBit(sign[..], b) { MaskBits(0, b % 16); }
  }

  lemma RowBitStep(st: BloomState, row: Row, n: nat, b: nat)
    requires Usable(st) && n < |row| <= |st.bitSize|
    ensures RowBit(st, row, n + 1, b) <==> RowBit(st, row, n, b) || (row[n].Some? && ValueBit(st, row[n].value, n, b))
  {
    if row[n].Some? && ValueBit(st, row[n].value, n, b) { assert RowBit(st, row, n + 1, b); }
  }

  /** BloomFormTuple: the signature has exactly the bits of the row's values; nulls add none. */
  method BloomFormTuple(st: BloomState, gen: Generator, iptr: int, values: Row) returns (res: Tuple)
    requires Usable(st) && |values| <= |st.bitSize|
    modifies gen
    ensures res.heapPtr == iptr && SignsRow(st, values, res.sign)
  {
    hide GetBit, ValueBit, RowBit;
    var sign := EmptySign(st);
    NoRowBits(st, values);
    for i := 0 to |values|
      invariant fresh(sign) && sign.Length == st.bloomLength
      invariant forall b: nat | b < NumBits(st) :: GetBit(sign[..], b) <==> RowBit(st, values, i, b)
    {
      forall b: nat | b < NumBits(st)
        ensures RowBit(st, values, i + 1, b) <==>
                RowBit(st, values, i, b) || (values[i].Some? && ValueBit(st, values[i].value, i, b))
      {
        RowBitStep(st, values, i, b);
      }
      if values[i].Some? {
        SignValue(st, gen, sign, values[i].value, i);
      }
    }
    res := Tuple(iptr, sign[..]);
  }

  lemma NoRowBits(st: BloomState, row: Row)
    requires Usable(st) && |row| <= |st.bitSize|
    ensures forall b: nat :: !RowBit(st, row, 0, b)
  {
  }

  // ----- searches -----

  /** A scan key: attribute number from 1, and the value it compares with. */
  datatype ScanKey = ScanKey(attno: nat, argument: Option<Datum>)

  predicate KeysFit(st: BloomState, keys: seq<ScanKey>) {
    forall k | k in keys :: 1 <= k.attno <= |st.bitSize|
  }

  /** Some of the first n keys has bit b. */
  ghost predicate SearchBit(st: BloomState, keys: seq<ScanKey>, n: nat, b: nat)
    requires Usable(st) && KeysFit(st, keys) && n <= |keys|
  {
    exists i: nat :: i < n && keys[i].argument.Some? && KeyBit(st, keys[i], b)
  }

  ghost predicate KeyBit(st: BloomState, key: ScanKey, b: nat)
    requires Usable(st) && 1 <= key.attno <= |st.bitSize|
  {
    key.argument.Some? && ValueBit(st, key.argument.value, key.attno - 1, b)
  }

  ghost predicate SignsSearch(st: BloomState, keys: seq<ScanKey>, sign: seq<bv16>)
    requires Usable(st) && KeysFit(st, keys)
  {
    |sign| == st.bloomLength && forall b: nat | b < NumBits(st) :: GetBit(sign, b) <==> SearchBit(st, keys, |keys|, b)
  }

  lemma SearchBitStep(st: BloomState, keys: seq<ScanKey>, n: nat, b: nat)
    requires Usable(st) && KeysFit(st, keys) && n < |keys|
    ensures SearchBit(st, keys, n + 1, b) <==> SearchBit(st, keys, n, b) || KeyBit(st, keys[n], b)
  {
    if KeyBit(st, keys[n], b) { assert SearchBit(st, keys, n + 1, b); }
  }

  /** The start of blgetbitmap: the search signature, or none when a key is null. */
  method SearchSignature(st: BloomState, gen: Generator, keys: seq<ScanKey>) returns (r: Option<seq<bv16>>)
    requires Usable(st) && KeysFit(st, keys)
    modifies gen
    ensures r.None? <==> exists k :: k in keys && k.argument.None?
    ensures r.Some? ==> SignsSearch(st, keys, r.value)
  {
    hide GetBit, ValueBit, SearchBit, KeysFit;
    var sign := EmptySign(st);
    NoSearchBits(st, keys);
    for i := 0 to |keys|
      invariant fresh(sign) && sign.Length == st.bloomLength
      invariant forall k | k in keys[..i] :: k.argument.Some?
      invariant forall b: nat | b < NumBits(st) :: GetBit(sign[..], b) <==> SearchBit(st, keys, i, b)
    {
      if keys[i].argument.None? { return None; }
      KeyFits(st, keys, i);
      SignValue(st, gen, sign, keys[i].argument.value, keys[i].attno - 1);
      forall b: nat | b < NumBits(st)
        ensures SearchBit(st, keys, i + 1, b) <==>
                SearchBit(st, keys, i, b) || ValueBit(st, keys[i].argument.value, keys[i].attno - 1, b)
      {
        SearchBitStep(st, keys, i, b);
      }
      assert keys[..i + 1] == keys[..i] + [keys[i]];
    }
    assert keys[..|keys|] == keys;
    r := Some(sign[..]);
  }

  lemma KeyFits(st: BloomState, keys: seq<ScanKey>, i: nat)
    requires KeysFit(st, keys) && i < |keys|
    ensures 1 <= keys[i].attno <= |st.bitSize|
  {
    assert keys[i] in keys;
  }

  lemma NoSearchBits(st: BloomState, keys: seq<ScanKey>)
    requires Usable(st) && KeysFit(st, keys)
    ensures forall b: nat :: !SearchBit(st, keys, 0, b)
  {
  }

  // ----- the scan -----

  predicate Passes(sign: seq<bv16>, search: seq<bv16>)
    requires |sign| == |search|
  {
    forall i | 0 <= i < |sign| :: Includes(sign[i], search[i])
  }

  /** The word loop of blgetbitmap */
  method TupleMatches(sign: seq<bv16>, search: seq<bv16>) returns (res: bool)
    requires |sign| == |search|
    ensures res == Passes(sign, search)
  {
    for i := 0 to |search|
      invariant forall j | 0 <= j < i :: Includes(sign[j], search[j])
    {
      if sign[i] & search[i] != search[i] { return false; }
    }
    return true;
  }

  /** The word test as inclusion of bits. */
  lemma PassesIff(sign: seq<bv16>, search: seq<bv16>)
    requires |sign| == |search|
    ensures Passes(sign, search) <==> forall b: nat | b < 16 * |sign| :: GetBit(search, b) ==> GetBit(sign, b)
  {
    hide WordBit, Includes;
    if Passes(sign, search) {
      forall b: nat | b < 16 * |sign| ensures GetBit(search, b) ==> GetBit(sign, b) {
        WordTest(sign[b / 16], search[b / 16]);
      }
    }
    if forall b: nat | b < 16 * |sign| :: GetBit(search, b) ==> GetBit(sign, b) {
      forall i | 0 <= i < |sign| ensures Includes(sign[i], search[i]) {
        forall k: nat | k < 16 ensures WordBit(search[i], k) ==> WordBit(sign[i], k) {
          assert (16 * i + k) / 16 == i && (16 * i + k) % 16 == k;
          assert GetBit(search, 16 * i + k) ==> GetBit(sign, 16 * i + k);
        }
        WordTest(sign[i], search[i]);
      }
    }
  }

  /** The row has the value of every key. */
  predicate RowMatches(row: Row, keys: seq<ScanKey>) {
    forall k | k in keys :: 1 <= k.attno <= |row| && k.argument.Some? && row[k.attno - 1] == k.argument
  }

  /** No false negatives: a row with the keys' values passes the test, whatever the hash functions, the
      signature length and the number of keys. */
  lemma MatchingRowPasses(st: BloomState, row: Row, keys: seq<ScanKey>, sign: seq<bv16>, search: seq<bv16>)
    requires Usable(st) && |row| <= |st.bitSize| && KeysFit(st, keys)
    requires SignsRow(st, row, sign) && SignsSearch(st, keys, search) && RowMatches(row, keys)
    ensures Passes(sign, search)
  {
    hide GetBit, ValueBit;
    forall b: nat | b < NumBits(st) && GetBit(search, b) ensures GetBit(sign, b) {
      var i: nat :| i < |keys| && keys[i].argument.Some? && KeyBit(st, keys[i], b);
      assert keys[i] in keys;
      var c := keys[i].attno - 1;
      assert row[c].Some? && ValueBit(st, row[c].value, c, b);
      assert RowBit(st, row, |row|, b);
    }
    PassesIff(sign, search);
  }

  /** The heap pointers of the tuples that pass, in order. */
  function Found(ts: seq<Tuple>, search: seq<bv16>): seq<int>
    requires forall t | t in ts :: |t.sign| == |search|
  {
    if |ts| == 0 then [] else
    var t := ts[|ts| - 1];
    Found(ts[..|ts| - 1], search) + if Passes(t.sign, search) then [t.heapPtr] else []
  }

  /** A page as the scan sees it: new, deleted, or with tuples. */
  datatype PageView = Skipped | Live(tuples: seq<Tuple>)

  function AllTuples(pages: seq<PageView>): seq<Tuple> {
    if |pages| == 0 then [] else
    AllTuples(pages[..|pages| - 1]) + if pages[|pages| - 1].Live? then pages[|pages| - 1].tuples else []
  }

  lemma {:induction false} FoundAppend(ts: seq<Tuple>, us: seq<Tuple>, search: seq<bv16>)
    requires forall t | t in ts + us :: |t.sign| == |search|
    ensures Found(ts + us, search) == Found(ts, search) + Found(us, search)
    decreases |us|
  {
    hide Passes;
    if |us| == 0 {
      assert ts + us == ts;
    } else {
      var n := |us| - 1;
      assert (ts + us)[..|ts| + n] == ts + us[..n];
      FoundAppend(ts, us[..n], search);
    }
  }

  /** blgetbitmap: nothing for a null key, otherwise the tuples of all live pages that pass. */
  method BlGetBitmap(st: BloomState, gen: Generator, keys: seq<ScanKey>, pages: seq<PageView>)
    returns (tids: seq<int>, ghost search: seq<bv16>)
    requires Usable(st) && KeysFit(st, keys)
    requires forall t | t in AllTuples(pages) :: |t.sign| == st.bloomLength
    modifies gen
    ensures if exists k :: k in keys && k.argument.None? then tids == []
            else SignsSearch(st, keys, search) && tids == Found(AllTuples(pages), search)
  {
    hide AllTuples, SignsSearch;
    var sign := SearchSignature(st, gen, keys);
    search := [];
    tids := [];
    if sign.None? { return; }
    search := sign.value;
    SearchWidth(st, keys, search);
    NoTuples(pages);
    for blkno := 0 to |pages|
      invariant forall t | t in AllTuples(pages[..blkno]) :: |t.sign| == |search|
      invariant tids == Found(AllTuples(pages[..blkno]), search)
    {
      TuplesStep(pages, blkno);
      if pages[blkno].Live? {
        var found := ScanPage(pages[blkno].tuples, sign.value);
        FoundAppend(AllTuples(pages[..blkno]), pages[blkno].tuples, search);
        tids := tids + found;
      } else {
        assert AllTuples(pages[..blkno]) + [] == AllTuples(pages[..blkno]);
      }
    }
    assert pages[..|pages|] == pages;
  }

  method ScanPage(ts: seq<Tuple>, search: seq<bv16>) returns (tids: seq<int>)
    requires forall t | t in ts :: |t.sign| == |search|
    ensures tids == Found(ts, search)
  {
    hide Passes;
    tids := [];
    for offset := 0 to |ts|
      invariant tids == Found(ts[..offset], search)
    {
      var res := TupleMatches(ts[offset].sign, search);
      assert ts[..offset + 1][..offset] == ts[..offset];
      if res {
        tids := tids + [ts[offset].heapPtr];
      }
    }
    assert ts[..|ts|] == ts;
  }

  lemma SearchWidth(st: BloomState, keys: seq<ScanKey>, search: seq<bv16>)
    requires Usable(st) && KeysFit(st, keys) && SignsSearch(st, keys, search)
    ensures |search| == st.bloomLength
  {
  }

  lemma NoTuples(pages: seq<PageView>)
    ensures AllTuples(pages[..0]) == []
  {
  }

  lemma {:induction false} TuplesWithin(pages: seq<PageView>, n: nat)
    requires n <= |pages|
    ensures forall t | t in AllTuples(pages[..n]) :: t in AllTuples(pages)
    decreases |pages|
  {
    if n < |pages| {
      var init := pages[..|pages| - 1];
      TuplesWithin(init, n);
      assert init[..n] == pages[..n];
    } else {
      assert pages[..n] == pages;
    }
  }

  lemma TuplesStep(pages: seq<PageView>, n: nat)
    requires n < |pages|
    ensures AllTuples(pages[..n + 1]) == AllTuples(pages[..n]) + if pages[n].Live? then pages[n].tuples else []
    ensures forall t | t in AllTuples(pages[..n + 1]) :: t in AllTuples(pages)
  {
    assert pages[..n + 1][..n] == pages[..n];
    TuplesWithin(pages, n + 1);
  }

  lemma {:induction false} FoundHas(ts: seq<Tuple>, search: seq<bv16>, t: Tuple)
    requires (forall u | u in ts :: |u.sign| == |search|) && t in ts && Passes(t.sign, search)
    ensures t.heapPtr in Found(ts, search)
    decreases |ts|
  {
    hide Passes;
    if ts[|ts| - 1] != t { FoundHas(ts[..|ts| - 1], search, t); }
  }

  /** Every bit of the search is set in the tuple. */
  predicate HasSearchBits(t: Tuple, search: seq<bv16>)
    requires |t.sign| == |search|
  {
    forall b: nat | b < 16 * |search| :: GetBit(search, b) ==> GetBit(t.sign, b)
  }

  /** A pointer is returned exactly if some tuple that has all bits of the search carries it. */
  lemma {:induction false} FoundIff(ts: seq<Tuple>, search: seq<bv16>, p: int)
    requires forall u | u in ts :: |u.sign| == |search|
    ensures p in Found(ts, search) <==> exists t :: t in ts && t.heapPtr == p && HasSearchBits(t, search)
    decreases |ts|
  {
    hide HasSearchBits, Passes;
    if |ts| > 0 {
      var init, last := ts[..|ts| - 1], ts[|ts| - 1];
      FoundIff(init, search, p);
      PassesBits(last, search);
      assert forall t :: t in ts <==> t in init || t == last;
    }
  }

  lemma PassesBits(t: Tuple, search: seq<bv16>)
    requires |t.sign| == |search|
    ensures Passes(t.sign, search) <==> HasSearchBits(t, search)
  {
    PassesIff(t.sign, search);
  }

  /** What the scan returns includes every indexed row that has the keys' values. */
  lemma NoFalseNegatives(st: BloomState, keys: seq<ScanKey>, ts: seq<Tuple>, search: seq<bv16>, t: Tuple, row: Row)
    requires Usable(st) && |row| <= |st.bitSize| && KeysFit(st, keys)
    requires forall u | u in ts :: |u.sign| == st.bloomLength
    requires SignsSearch(st, keys, search) && t in ts && SignsRow(st, row, t.sign) && RowMatches(row, keys)
    ensures t.heapPtr in Found(ts, search)
  {
    hide GetBit, Passes, RowMatches;
    SearchWidth(st, keys, search);
    MatchingRowPasses(st, row, keys, t.sign, search);
    FoundHas(ts, search, t);
  }
}
