/** Values of the previous hstore format, recognised and rewritten in place. */
module HStoreUpgrade {
  import opened Bytes
  import opened Common
  import opened HStoreFormat

  type Word = w: int | 0 <= w < 0x1_0000_0000

  /** The space of one pair: two entries of the new format, or one of the old. */
  datatype Cell = Cell(first: Word, second: Word)

  const FLAG: int := 0x8000_0000     // HENTRY_ISFIRST, HS_FLAG_NEWVERSION
  const NULL_BIT: int := 0x4000_0000 // HENTRY_ISNULL
  const VARLENA_LIMIT := 0x4000_0000

  /** HS_COUNT */
  function CountOf(size: Word): nat { size % 0x1000_0000 }

  /** CALCDATASIZE */
  function DataSize(count: nat, lenstr: nat): nat { 8 * count + 8 + lenstr }

  // ----- entries of the new format -----

  function EntryOf(w: Word): HEntry { HEntry(w >= FLAG, w % FLAG >= NULL_BIT, w % NULL_BIT) }

  function EndOf(w: Word): nat { w % NULL_BIT }

  function WordAt(cs: seq<Cell>, j: nat): Word
    requires j < 2 * |cs|
  {
    if j % 2 == 0 then cs[j / 2].first else cs[j / 2].second
  }

  function NewEntries(cs: seq<Cell>): (es: seq<HEntry>)
    ensures |es| == 2 * |cs|
  {
    seq(2 * |cs|, j requires 0 <= j < 2 * |cs| => EntryOf(WordAt(cs, j)))
  }

  /** Where the string ends. */
  function NewEnd(cs: seq<Cell>): nat { if |cs| == 0 then 0 else EndOf(cs[|cs| - 1].second) }

  /** HSTORE_KEYLEN */
  function KeyLen(cs: seq<Cell>, i: nat): int
    requires i < |cs|
  {
    if cs[i].first >= FLAG || i == 0 then EndOf(cs[i].first) else EndOf(cs[i].first) - EndOf(cs[i - 1].second)
  }

  // ----- entries of the old format -----

  /** HOldEntry on a little-endian machine: the lengths share the first word, the null flag and the
      position the second. */
  datatype OldEntry = OldEntry(keylen: nat, vallen: nat, valisnull: bool, pos: nat)

  function OldOf(c: Cell): OldEntry {
    OldEntry(c.first % 0x1_0000, c.first / 0x1_0000, c.second % 2 == 1, c.second / 2)
  }

  function OldLen(c: Cell): nat { OldOf(c).keylen + if OldOf(c).valisnull then 0 else OldOf(c).vallen }

  /** Where the strings of old entry n should start. */
  function OldPos(cs: seq<Cell>, n: nat): nat
    requires n <= |cs|
  {
    if n == 0 then 0 else OldPos(cs, n - 1) + OldLen(cs[n - 1])
  }

  predicate OldKeysGrow(cs: seq<Cell>, n: nat) {
    n <= |cs| && forall i | 1 <= i < n :: OldOf(cs[i]).keylen >= OldOf(cs[i - 1]).keylen
  }

  predicate OldContiguous(cs: seq<Cell>, n: nat) {
    n <= |cs| && forall i | 0 <= i < n :: OldOf(cs[i]).pos == OldPos(cs, i)
  }

  /** The entries lie end to end from 0, key lengths do not decrease, and everything fits. */
  predicate AcceptedOld(size: Word, varsize: nat, cs: seq<Cell>) {
    && size == |cs| < 0x1000_0000
    && (size > 0 ==> OldKeysGrow(cs, |cs|) && OldContiguous(cs, |cs|) && DataSize(|cs|, OldPos(cs, |cs|)) <= varsize)
  }

  lemma {:induction false} OldPosGrows(cs: seq<Cell>, i: nat, j: nat)
    requires i <= j <= |cs|
    ensures OldPos(cs, i) <= OldPos(cs, j)
  {
    if i < j { OldPosGrows(cs, i, j - 1); }
  }

  /** Pair i of an old value. */
  function OldPair(cs: seq<Cell>, str: bytes, i: nat): Pair
    requires i < |cs| && OldPos(cs, i) + OldLen(cs[i]) <= |str|
  {
    var e, at := OldOf(cs[i]), OldPos(cs, i);
    Pair(str[at..at + e.keylen], if e.valisnull then None else Some(str[at + e.keylen..at + e.keylen + e.vallen]))
  }

  function OldPairs(cs: seq<Cell>, str: bytes): (ps: seq<Pair>)
    requires OldPos(cs, |cs|) <= |str|
    ensures |ps| == |cs|
  {
    seq(|cs|, i requires 0 <= i < |cs| => OldPosGrows(cs, i + 1, |cs|); OldPair(cs, str, i))
  }

  // ----- validity -----

  /** hstoreValidOldFormat: 0 not valid, 1 valid with slop, 2 exactly valid. */
  method ValidOldFormat(size: Word, varsize: nat, cs: seq<Cell>) returns (valid: nat)
    requires |cs| == CountOf(size)
    ensures valid == if !AcceptedOld(size, varsize, cs) then 0
                     else if size > 0 && varsize != DataSize(|cs|, OldPos(cs, |cs|)) then 1 else 2
  {
    hide OldOf, OldLen;
    if size >= FLAG { return 0; }
    var count := size;
    if count == 0 { return 2; }
    if count > 0xFFF_FFFF { return 0; }
    if DataSize(count, 0) > varsize { return 0; }
    if OldOf(cs[0]).pos != 0 {
      assert OldPos(cs, 0) == 0;
      return 0;
    }
    for i := 1 to count
      invariant OldKeysGrow(cs, i)
    {
      if OldOf(cs[i]).keylen < OldOf(cs[i - 1]).keylen { return 0; }
    }
    var lastpos: nat := 0;
    for i := 0 to count
      invariant OldContiguous(cs, i) && lastpos == OldPos(cs, i)
    {
      if OldOf(cs[i]).pos != lastpos { return 0; }
      lastpos := lastpos + OldLen(cs[i]);
    }
    var vsize := DataSize(count, lastpos);
    if vsize > varsize { return 0; }
    return if vsize != varsize then 1 else 2;
  }

  /** What the test for the new format accepts: it does not look at the null flag of the first key,
      nor at the length of null values. */
  predicate AcceptedNew(size: Word, varsize: nat, cs: seq<Cell>) {
    size >= FLAG || |cs| == 0 ||
    (&& cs[0].first >= FLAG && DataSize(|cs|, NewEnd(cs)) <= varsize
     && (forall j | 1 <= j < 2 * |cs| :: WordAt(cs, j) < FLAG && EndOf(WordAt(cs, j)) >= EndOf(WordAt(cs, j - 1)))
     && (forall i | 1 <= i < |cs| :: KeyLen(cs, i) >= KeyLen(cs, i - 1) && !EntryOf(cs[i].first).isnull))
  }

  /** hstoreValidNewFormat: 0 not valid, 1 valid with slop, 2 exactly valid. */
  method ValidNewFormat(size: Word, varsize: nat, cs: seq<Cell>) returns (valid: nat)
    requires |cs| == CountOf(size)
    ensures valid == if !AcceptedNew(size, varsize, cs) then 0
                     else if size < FLAG && |cs| > 0 && varsize != DataSize(|cs|, NewEnd(cs)) then 1 else 2
  {
    hide EntryOf, EndOf, KeyLen, WordAt;
    var count := |cs|;
    var buflen := if count > 0 then EndOf(cs[count - 1].second) else 0;
    var vsize := DataSize(count, buflen);
    if size >= FLAG { return 2; }
    if count == 0 { return 2; }
    if cs[0].first < FLAG { return 0; }
    if vsize > varsize { return 0; }
    for i := 1 to 2 * count
      invariant forall j | 1 <= j < i :: WordAt(cs, j) < FLAG && EndOf(WordAt(cs, j)) >= EndOf(WordAt(cs, j - 1))
    {
      if WordAt(cs, i) >= FLAG || EndOf(WordAt(cs, i)) < EndOf(WordAt(cs, i - 1)) { return 0; }
    }
    for i := 1 to count
      invariant forall j | 1 <= j < i :: KeyLen(cs, j) >= KeyLen(cs, j - 1) && !EntryOf(cs[j].first).isnull
    {
      if KeyLen(cs, i) < KeyLen(cs, i - 1) { return 0; }
      if EntryOf(cs[i].first).isnull { return 0; }
    }
    return if vsize != varsize then 1 else 2;
  }

  // ----- rewriting -----

  /** The two words hstoreUpgrade writes for an old entry. */
  function KeyWord(c: Cell): Word { (OldOf(c).pos + OldOf(c).keylen) % NULL_BIT }

  function ValWord(c: Cell): Word {
    (OldOf(c).pos + OldLen(c)) % NULL_BIT + if OldOf(c).valisnull then NULL_BIT else 0
  }

  function Rewritten(cs: seq<Cell>): (ns: seq<Cell>)
    ensures |ns| == |cs|
  {
    seq(|cs|, i requires 0 <= i < |cs| => Cell(KeyWord(cs[i]), ValWord(cs[i])))
  }

  /** The overlapping rewrite loop of hstoreUpgrade: an entry is read before its words are replaced. */
  method RewriteEntries(cells: array<Cell>)
    modifies cells
    ensures cells[..] == Rewritten(old(cells[..]))
  {
    hide KeyWord, ValWord, OldOf, OldLen;
    for i := 0 to cells.Length
      invariant cells[..i] == Rewritten(old(cells[..]))[..i] && cells[i..] == old(cells[i..])
    {
      assert cells[i] == cells[i..][0] == old(cells[i]);
      var e := cells[i];
      cells[i] := cells[i].(first := KeyWord(e));
      cells[i] := cells[i].(second := ValWord(e));
      assert cells[i + 1..] == old(cells[i..])[1..];
    }
  }

  function FirstMarked(cs: seq<Cell>): (ms: seq<Cell>)
    ensures |ms| == |cs|
  {
    if |cs| > 0 && cs[0].first < FLAG then cs[0 := cs[0].(first := cs[0].first + FLAG)] else cs
  }

  /** The new-format reading of the cells and the string area. */
  function NewValue(cs: seq<Cell>, str: bytes): HStore
    requires NewEnd(cs) <= |str|
  {
    HStore(NewEntries(cs), str[..NewEnd(cs)])
  }

  /** How the words written for an entry read in the new format. */
  lemma WordsRead(c: Cell, first: bool)
    requires OldOf(c).pos + OldLen(c) < NULL_BIT
    ensures var e := OldOf(c);
            && KeyWord(c) < FLAG
            && EntryOf(if first then KeyWord(c) + FLAG else KeyWord(c)) == HEntry(first, false, e.pos + e.keylen)
            && EntryOf(ValWord(c)) == HEntry(false, e.valisnull, e.pos + OldLen(c))
            && EndOf(ValWord(c)) == e.pos + OldLen(c)
  {
    hide OldOf;
    assert KeyWord(c) == OldOf(c).pos + OldOf(c).keylen;
    assert ValWord(c) == OldOf(c).pos + OldLen(c) + if OldOf(c).valisnull then NULL_BIT else 0;
  }

  lemma OldPairAt(cs: seq<Cell>, str: bytes, i: nat)
    requires OldPos(cs, |cs|) <= |str| && i < |cs|
    ensures var p, e := OldPairs(cs, str)[i], OldOf(cs[i]);
            && OldPos(cs, i + 1) == OldPos(cs, i) + OldLen(cs[i]) <= |str|
            && |p.key| == e.keylen && (p.val.None? <==> e.valisnull) && |p.key| + |ValBytes(p)| == OldLen(cs[i])
            && p.key + ValBytes(p) == str[OldPos(cs, i)..OldPos(cs, i + 1)]
  {
    hide OldOf;
    OldPosGrows(cs, i + 1, |cs|);
    var p, e, at := OldPair(cs, str, i), OldOf(cs[i]), OldPos(cs, i);
    assert OldPairs(cs, str)[i] == p;
    assert str[at..at + e.keylen] + str[at + e.keylen..at + OldLen(cs[i])] == str[at..at + OldLen(cs[i])];
  }

  lemma {:induction false} OldStr(cs: seq<Cell>, str: bytes, i: nat)
    requires OldPos(cs, |cs|) <= |str| && i <= |cs|
    ensures OldPos(cs, i) <= |str| && PackStr(OldPairs(cs, str)[..i]) == str[..OldPos(cs, i)]
  {
    hide PackStr, OldPairs, OldOf, OldLen;
    OldPosGrows(cs, i, |cs|);
    if i == 0 {
      assert OldPairs(cs, str)[..0] == [];
      NothingPacked();
    } else {
      OldStr(cs, str, i - 1);
      StrStep(OldPairs(cs, str), i - 1);
      OldPairAt(cs, str, i - 1);
      var a, p := str[..OldPos(cs, i - 1)], OldPairs(cs, str)[i - 1];
      assert a + p.key + ValBytes(p) == a + (p.key + ValBytes(p));
    }
  }

  /** The rewritten words of one pair are the entries that packing gives it. */
  lemma RewrittenEntries(cs: seq<Cell>, str: bytes, k: nat)
    requires k < |cs| && OldContiguous(cs, |cs|) && OldPos(cs, |cs|) <= |str| && OldPos(cs, |cs|) < NULL_BIT
    ensures var g, now := Pack(OldPairs(cs, str)), FirstMarked(Rewritten(cs));
            && |g.ents| == 2 * |cs| && EntryOf(now[k].first) == g.ents[2 * k]
            && EntryOf(now[k].second) == g.ents[2 * k + 1] && EndOf(now[k].second) == OldPos(cs, k + 1)
  {
    hide Pack, PackStr, OldPairs, OldOf, OldLen, EntryOf, EndOf, KeyWord, ValWord;
    PackSize(OldPairs(cs, str));
    PackedAt(OldPairs(cs, str), k);
    OldStr(cs, str, k);
    OldPairAt(cs, str, k);
    OldPosGrows(cs, k + 1, |cs|);
    assert OldOf(cs[k]).pos == OldPos(cs, k);
    WordsRead(cs[k], k == 0);
  }

  lemma NewEntryAt(cs: seq<Cell>, j: nat)
    requires j < 2 * |cs|
    ensures NewEntries(cs)[j] == EntryOf(if j % 2 == 0 then cs[j / 2].first else cs[j / 2].second)
  {
  }

  /** The rewritten value is the packing of the old pairs: the same keys, values and nulls, in the
      same order. */
  lemma RewritePreserves(cs: seq<Cell>, str: bytes)
    requires OldContiguous(cs, |cs|) && OldPos(cs, |cs|) <= |str| && OldPos(cs, |cs|) < NULL_BIT
    ensures NewEnd(FirstMarked(Rewritten(cs))) == OldPos(cs, |cs|)
    ensures NewValue(FirstMarked(Rewritten(cs)), str) == Pack(OldPairs(cs, str))
  {
    hide Pack, PackStr, OldPairs, OldOf, OldLen, EntryOf, EndOf, Rewritten, FirstMarked, NewEntries, OldContiguous;
    var ps, n, now := OldPairs(cs, str), |cs|, FirstMarked(Rewritten(cs));
    var g := Pack(ps);
    PackSize(ps);
    OldStr(cs, str, n);
    assert ps[..n] == ps;
    forall j | 0 <= j < 2 * n ensures NewEntries(now)[j] == g.ents[j] {
      RewrittenEntries(cs, str, j / 2);
      NewEntryAt(now, j);
      assert j == 2 * (j / 2) + j % 2;
    }
    if n > 0 { RewrittenEntries(cs, str, n - 1); }
  }

  // ----- old values as they were written -----

  /** The cell of a pair whose strings start at `at`: the two lengths, then the position and the null
      flag. A null may have any value length. */
  predicate WritesCell(c: Cell, p: Pair, at: nat) {
    && |p.key| < 0x1_0000 && (p.val.None? ==> c.first % 0x1_0000 == |p.key|)
    && (p.val.Some? ==> c.first == |p.key| + 0x1_0000 * |p.val.value|)
    && c.second == 2 * at + if p.val.None? then 1 else 0
  }

  /** The cells of the pairs, their strings one after the other. */
  predicate WritesOld(cs: seq<Cell>, ps: seq<Pair>) {
    |cs| == |ps| && forall i | 0 <= i < |ps| :: WritesCell(cs[i], ps[i], |PackStr(ps[..i])|)
  }

  lemma CellReads(c: Cell, p: Pair, at: nat)
    requires WritesCell(c, p, at)
    ensures var e := OldOf(c);
            && e.keylen == |p.key| && e.valisnull == p.val.None? && e.pos == at
            && (p.val.Some? ==> e.vallen == |p.val.value|)
            && OldLen(c) == |p.key| + |ValBytes(p)|
  {
  }

  lemma {:induction false} OldPosIs(cs: seq<Cell>, ps: seq<Pair>, i: nat)
    requires WritesOld(cs, ps) && i <= |ps|
    ensures OldPos(cs, i) == |PackStr(ps[..i])|
  {
    hide OldOf, OldLen, PackStr, WritesCell;
    if i == 0 {
      NothingPacked();
      assert ps[..0] == [];
    } else {
      OldPosIs(cs, ps, i - 1);
      StrStep(ps, i - 1);
      CellReads(cs[i - 1], ps[i - 1], |PackStr(ps[..i - 1])|);
    }
  }

  lemma OldPairIs(cs: seq<Cell>, ps: seq<Pair>, str: bytes, i: nat)
    requires WritesOld(cs, ps) && Prefix(PackStr(ps), str) && i < |ps|
    ensures OldPos(cs, i) + OldLen(cs[i]) <= |str| && OldPair(cs, str, i) == ps[i]
  {
    hide OldLen, OldPos, OldPair, PackStr, WritesCell, Prefix;
    OldPosIs(cs, ps, i);
    StrStep(ps, i);
    var a, p, b := PackStr(ps[..i]), ps[i], PackStr(ps[..i + 1]);
    PrefixOfPrefix(b, PackStr(ps), str);
    Parts(str, b, a, p.key, ValBytes(p));
    PairFrom(cs, str, i, p);
  }

  lemma PairFrom(cs: seq<Cell>, str: bytes, i: nat, p: Pair)
    requires i < |cs| && WritesCell(cs[i], p, OldPos(cs, i))
    requires var at, k, v := OldPos(cs, i), |p.key|, |ValBytes(p)|;
             at + k + v <= |str| && str[at..at + k] == p.key && str[at + k..at + k + v] == ValBytes(p)
    ensures OldPos(cs, i) + OldLen(cs[i]) <= |str| && OldPair(cs, str, i) == p
  {
    hide OldOf, OldLen, OldPos, WritesCell;
    CellReads(cs[i], p, OldPos(cs, i));
  }

  lemma PrefixOfPrefix(a: bytes, b: bytes, c: bytes)
    requires Prefix(a, b) && Prefix(b, c)
    ensures Prefix(a, c)
  {
    assert c[..|a|] == c[..|b|][..|a|];
  }

  lemma Parts(str: bytes, whole: bytes, a: bytes, k: bytes, v: bytes)
    requires Prefix(whole, str) && whole == a + k + v
    ensures |whole| <= |str| && str[|a|..|a| + |k|] == k && str[|a| + |k|..|a| + |k| + |v|] == v
  {
    assert str[..|whole|] == a + k + v;
    assert str[|a|..|a| + |k|] == str[..|whole|][|a|..|a| + |k|];
    assert str[|a| + |k|..|a| + |k| + |v|] == str[..|whole|][|a| + |k|..];
  }

  /** Whatever sorted pairs were written in the old format, they are accepted as old and read back. */
  lemma OldFormAccepted(ps: seq<Pair>, cs: seq<Cell>, str: bytes, size: Word, varsize: nat)
    requires WritesOld(cs, ps) && Sorted(ps) && Prefix(PackStr(ps), str)
    requires size == |ps| < 0x1000_0000 && 8 * |ps| + 8 + |PackStr(ps)| <= varsize
    ensures AcceptedOld(size, varsize, cs) && OldPos(cs, |cs|) <= |str| && OldPairs(cs, str) == ps
  {
    hide OldOf, OldLen, PackStr, WritesCell, OldPos;
    OldPosIs(cs, ps, |ps|);
    assert ps[..|ps|] == ps;
    forall i | 0 <= i < |ps| ensures OldOf(cs[i]).keylen == |ps[i].key| && OldOf(cs[i]).pos == OldPos(cs, i) {
      OldPosIs(cs, ps, i);
      CellReads(cs[i], ps[i], |PackStr(ps[..i])|);
    }
    forall i | 1 <= i < |ps| ensures |ps[i].key| >= |ps[i - 1].key| { assert KeyLess(ps[i - 1].key, ps[i].key); }
    forall i | 0 <= i < |ps| ensures OldPairs(cs, str)[i] == ps[i] { OldPairIs(cs, ps, str, i); }
  }

  /** And whatever is accepted as old was written for the pairs it reads as, with key lengths that do not
      decrease. */
  lemma AcceptedWasWritten(cs: seq<Cell>, str: bytes, size: Word, varsize: nat)
    requires AcceptedOld(size, varsize, cs) && size > 0 && OldPos(cs, |cs|) <= |str|
    ensures var ps := OldPairs(cs, str);
            && WritesOld(cs, ps) && Prefix(PackStr(ps), str)
            && forall i | 1 <= i < |ps| :: |ps[i].key| >= |ps[i - 1].key|
  {
    hide OldOf, OldLen, PackStr, OldPairs, WritesCell, OldPos;
    var ps := OldPairs(cs, str);
    forall i | 0 <= i < |ps|
      ensures WritesCell(cs[i], ps[i], |PackStr(ps[..i])|) && |ps[i].key| == OldOf(cs[i]).keylen
    {
      OldStr(cs, str, i);
      OldPairAt(cs, str, i);
      OldPairVal(cs, str, i);
      CellWrites(cs[i], ps[i], OldPos(cs, i));
    }
    OldStr(cs, str, |ps|);
    assert ps[..|ps|] == ps;
  }

  lemma CellWrites(c: Cell, p: Pair, at: nat)
    requires OldOf(c).keylen == |p.key| && OldOf(c).valisnull == p.val.None? && OldOf(c).pos == at
    requires p.val.Some? ==> OldOf(c).vallen == |p.val.value|
    ensures WritesCell(c, p, at)
  {
  }

  lemma OldPairVal(cs: seq<Cell>, str: bytes, i: nat)
    requires OldPos(cs, |cs|) <= |str| && i < |cs|
    ensures var p := OldPairs(cs, str)[i]; p.val.Some? ==> OldOf(cs[i]).vallen == |p.val.value|
  {
    hide OldOf;
    OldPosGrows(cs, i + 1, |cs|);
    assert OldPairs(cs, str)[i] == OldPair(cs, str, i);
  }

  // ----- what the test for the new format lets through -----

  /** The first key is not null, and null values take no space: what the test does not look at. */
  predicate NullsInOrder(cs: seq<Cell>) {
    && (|cs| > 0 ==> !EntryOf(cs[0].first).isnull)
    && forall i | 0 <= i < |cs| && EntryOf(cs[i].second).isnull :: EndOf(cs[i].second) == EndOf(cs[i].first)
  }

  predicate KeysGrow(ps: seq<Pair>) { forall i | 1 <= i < |ps| :: |ps[i].key| >= |ps[i - 1].key| }

  /** Apart from its nulls, what the test accepts without a version flag is well formed, with key lengths
      that do not decrease, and fits; and everything of that kind is accepted. */
  lemma NewFormIff(cs: seq<Cell>, str: bytes, size: Word, varsize: nat)
    requires |cs| > 0 && size < FLAG && NewEnd(cs) <= |str|
    ensures AcceptedNew(size, varsize, cs) && NullsInOrder(cs) <==>
            WellFormed(NewValue(cs, str)) && KeysGrow(Pairs(NewValue(cs, str))) && 8 * |cs| + 8 + NewEnd(cs) <= varsize
  {
    hide EntryOf, EndOf, AcceptedNew, WellFormed, Pairs, NullsInOrder;
    if AcceptedNew(size, varsize, cs) && NullsInOrder(cs) {
      AcceptedIsFormed(cs, str, size, varsize);
      KeyLensAre(cs, str);
      KeyLensGrow(cs, str, size, varsize);
    }
    if WellFormed(NewValue(cs, str)) && KeysGrow(Pairs(NewValue(cs, str))) && 8 * |cs| + 8 + NewEnd(cs) <= varsize {
      KeyLensAre(cs, str);
      FormedIsAccepted(cs, str, size, varsize);
    }
  }

  lemma EntryIs(w: Word)
    ensures EntryOf(w).endpos == EndOf(w) && (EntryOf(w).isfirst <==> w >= FLAG)
  {
  }

  /** Entry j of the new reading, from its word. */
  lemma EntryWord(cs: seq<Cell>, j: nat)
    requires j < 2 * |cs|
    ensures var e, w := NewEntries(cs)[j], WordAt(cs, j);
            e == EntryOf(w) && e.endpos == EndOf(w) && (e.isfirst <==> w >= FLAG)
  {
    hide EntryOf, EndOf;
    EntryIs(WordAt(cs, j));
  }

  lemma AcceptedIsFormed(cs: seq<Cell>, str: bytes, size: Word, varsize: nat)
    requires |cs| > 0 && size < FLAG && NewEnd(cs) <= |str| && AcceptedNew(size, varsize, cs) && NullsInOrder(cs)
    ensures WellFormed(NewValue(cs, str))
  {
    hide EntryOf, EndOf, NewEntries;
    var h := NewValue(cs, str);
    EntryWord(cs, 2 * |cs| - 1);
    forall j | 0 <= j < 2 * |cs| ensures EntryOk(h.ents, j) {
      EntryWord(cs, j);
      EntryIs(cs[j / 2].first);
      if j > 0 { EntryWord(cs, j - 1); }
      if j + 1 < 2 * |cs| { EntryWord(cs, j + 1); }
    }
  }

  /** The key lengths the test computes are those of the pairs. */
  lemma KeyLensAre(cs: seq<Cell>, str: bytes)
    requires NewEnd(cs) <= |str| && WellFormed(NewValue(cs, str))
    ensures |Pairs(NewValue(cs, str))| == |cs|
    ensures forall i | 0 <= i < |cs| :: |Pairs(NewValue(cs, str))[i].key| == KeyLen(cs, i)
  {
    hide EntryOf, EndOf, NewEntries, WellFormed, KeyLen;
    forall i | 0 <= i < |cs| ensures |Pairs(NewValue(cs, str))[i].key| == KeyLen(cs, i) { KeyLenIs(cs, str, i); }
  }

  lemma KeyLenIs(cs: seq<Cell>, str: bytes, i: nat)
    requires NewEnd(cs) <= |str| && WellFormed(NewValue(cs, str)) && i < |cs|
    ensures |Pairs(NewValue(cs, str))[i].key| == KeyLen(cs, i)
  {
    hide EntryOf, EndOf, NewEntries;
    var h := NewValue(cs, str);
    EntryWord(cs, 2 * i);
    WordsOf(cs, i);
    if i > 0 { EntryWord(cs, 2 * i - 1); }
    assert EntryOk(h.ents, 2 * i);
    EndsGrow(h, 2 * i, 2 * |cs| - 1);
    assert Pairs(h)[i] == PairAt(h, i);
  }

  lemma WordsOf(cs: seq<Cell>, i: nat)
    requires i < |cs|
    ensures WordAt(cs, 2 * i) == cs[i].first && (i > 0 ==> WordAt(cs, 2 * i - 1) == cs[i - 1].second)
  {
  }

  lemma KeyLensGrow(cs: seq<Cell>, str: bytes, size: Word, varsize: nat)
    requires |cs| > 0 && size < FLAG && NewEnd(cs) <= |str| && AcceptedNew(size, varsize, cs)
    requires WellFormed(NewValue(cs, str)) && |Pairs(NewValue(cs, str))| == |cs|
    requires forall i | 0 <= i < |cs| :: |Pairs(NewValue(cs, str))[i].key| == KeyLen(cs, i)
    ensures KeysGrow(Pairs(NewValue(cs, str))) && 8 * |cs| + 8 + NewEnd(cs) <= varsize
  {
    hide EntryOf, EndOf, WellFormed, Pairs, KeyLen;
  }

  lemma FormedIsAccepted(cs: seq<Cell>, str: bytes, size: Word, varsize: nat)
    requires |cs| > 0 && size < FLAG && NewEnd(cs) <= |str| && 8 * |cs| + 8 + NewEnd(cs) <= varsize
    requires WellFormed(NewValue(cs, str)) && |Pairs(NewValue(cs, str))| == |cs| && KeysGrow(Pairs(NewValue(cs, str)))
    requires forall i | 0 <= i < |cs| :: |Pairs(NewValue(cs, str))[i].key| == KeyLen(cs, i)
    ensures AcceptedNew(size, varsize, cs) && NullsInOrder(cs)
  {
    hide EntryOf, EndOf, WellFormed, Pairs, KeyLen;
    WordsFormed(cs, str, 0);
    forall j | 1 <= j < 2 * |cs|
      ensures WordAt(cs, j) < FLAG && EndOf(WordAt(cs, j)) >= EndOf(WordAt(cs, j - 1))
    {
      WordsFormed(cs, str, j);
    }
    forall i | 0 <= i < |cs|
      ensures !EntryOf(cs[i].first).isnull
      ensures EntryOf(cs[i].second).isnull ==> EndOf(cs[i].second) == EndOf(cs[i].first)
    {
      WordsFormed(cs, str, 2 * i);
      WordsFormed(cs, str, 2 * i + 1);
    }
    var ps := Pairs(NewValue(cs, str));
    forall i | 1 <= i < |cs| ensures KeyLen(cs, i) >= KeyLen(cs, i - 1) { assert |ps[i].key| >= |ps[i - 1].key|; }
  }

  lemma WordsFormed(cs: seq<Cell>, str: bytes, j: nat)
    requires NewEnd(cs) <= |str| && WellFormed(NewValue(cs, str)) && j < 2 * |cs|
    ensures (WordAt(cs, j) >= FLAG <==> j == 0) && (j > 0 ==> EndOf(WordAt(cs, j)) >= EndOf(WordAt(cs, j - 1)))
    ensures EntryOf(WordAt(cs, j)).isnull ==> j % 2 == 1 && EndOf(WordAt(cs, j)) == EndOf(WordAt(cs, j - 1))
  {
    hide EntryOf, EndOf, NewEntries;
    var h := NewValue(cs, str);
    EntryWord(cs, j);
    assert EntryOk(h.ents, j);
    if j > 0 {
      EntryWord(cs, j - 1);
      assert EntryOk(h.ents, j - 1);
    }
  }

  // ----- hstoreUpgrade -----

  /** A detoasted value: varlena size, header word, entry cells, and the bytes after them. */
  class Varlena {
    var varsize: nat
    var size: Word
    const cells: array<Cell>
    const str: bytes

    constructor (varsize: nat, size: Word, cells: array<Cell>, str: bytes)
      ensures this.varsize == varsize && this.size == size && this.cells == cells && this.str == str
    {
      this.varsize, this.size, this.cells, this.str := varsize, size, cells, str;
    }

    /** The cells are as many as the header announces, and the image covers the varlena size. */
    predicate Valid()
      reads this
    {
      cells.Length == CountOf(size) && varsize < VARLENA_LIMIT && varsize <= DataSize(cells.Length, |str|)
    }

    /** HS_SETCOUNT and HS_FIXSIZE */
    method SetNew()
      requires cells.Length == CountOf(size)
      modifies this`varsize, this`size
      ensures Marked(cells[..], size, varsize)
    {
      var count := cells.Length;
      size := count + FLAG;
      varsize := DataSize(count, if count > 0 then EndOf(cells[count - 1].second) else 0);
    }

    /** The part of hstoreUpgrade that overwrites an old value as a new one. */
    method Overwrite()
      requires Valid() && AcceptedOld(size, varsize, cells[..]) && size > 0
      modifies this`varsize, this`size, cells
      ensures Upgraded(old(cells[..]), str, cells[..], size, varsize)
    {
      hide AcceptedOld, Upgraded, Marked, Rewritten, FirstMarked, EndOf;
      ghost var cs := cells[..];
      OldFits(size, varsize, cs, str);
      RewriteEntries(cells);
      RewritePreserves(cs, str);
      if cells.Length > 0 { Mark(); }
      SetNew();
      MakeUpgraded(cs, str, cells[..], size, varsize);
    }

    method Mark()
      requires cells.Length > 0
      modifies cells
      ensures cells[..] == FirstMarked(old(cells[..]))
    {
      if cells[0].first < FLAG {
        cells[0] := cells[0].(first := cells[0].first + FLAG);
      }
    }

    /** hstoreUpgrade; false stands for its error. */
    method HStoreUpgrade() returns (ok: bool)
      requires Valid()
      modifies this`varsize, this`size, cells
      ensures var was := (old(size), old(varsize), old(cells[..]));
              var asNew := ok && cells[..] == was.2 && Marked(cells[..], size, varsize);
              var same := cells[..] == was.2 && size == was.0 && varsize == was.1;
              if was.0 >= FLAG then ok && same
              else if TakenAsNew(was.0, was.1, was.2) then asNew
              else if AcceptedOld(was.0, was.1, was.2) then ok && Upgraded(was.2, str, cells[..], size, varsize)
              else if AcceptedNew(was.0, was.1, was.2) then asNew
              else !ok && same
      ensures old(size) > 0 && AcceptedOld(old(size), old(varsize), old(cells[..])) ==>
                (ok && KeepsPairs(old(cells[..]), str, cells[..]) <==> !Misjudged(old(varsize), old(cells[..])))
    {
      hide AcceptedOld, AcceptedNew, Upgraded, Marked, CountOf, DataSize, KeepsPairs, Misjudged;
      KeptIff(size, varsize, cells[..], str);
      if size >= FLAG { return true; }
      if size == 0 || (varsize < 32768 && cells.Length > 0 && cells[0].first >= FLAG) {
        SetNew();
        return true;
      }
      var validNew := ValidNewFormat(size, varsize, cells[..]);
      var validOld := ValidOldFormat(size, varsize, cells[..]);
      if validOld == 0 {
        if validNew != 0 {
          SetNew();
          return true;
        }
        return false;
      }
      Overwrite();
      return true;
    }
  }

  /** The header says new format, and the varlena size ends with the last string. */
  predicate Marked(cs: seq<Cell>, size: Word, varsize: nat) {
    size == |cs| + FLAG && varsize == DataSize(|cs|, NewEnd(cs))
  }

  /** The shortcut of hstoreUpgrade, which asks neither validity test. */
  predicate TakenAsNew(size: Word, varsize: nat, cs: seq<Cell>) {
    size == 0 || (varsize < 32768 && |cs| > 0 && cs[0].first >= FLAG)
  }

  /** A well-formed value in the new format that holds exactly the old pairs, with its exact size. */
  ghost predicate Upgraded(cs: seq<Cell>, str: bytes, now: seq<Cell>, size: Word, varsize: nat) {
    && |now| == |cs| && NewEnd(now) <= |str| && OldPos(cs, |cs|) <= |str|
    && WellFormed(NewValue(now, str)) && Pairs(NewValue(now, str)) == OldPairs(cs, str)
    && size == |cs| + FLAG && varsize == DataSize(|cs|, |NewValue(now, str).str|)
  }

  lemma OldFits(size: Word, varsize: nat, cs: seq<Cell>, str: bytes)
    requires AcceptedOld(size, varsize, cs) && size > 0
    requires varsize < VARLENA_LIMIT && varsize <= DataSize(|cs|, |str|)
    ensures OldContiguous(cs, |cs|) && OldPos(cs, |cs|) <= |str| && OldPos(cs, |cs|) < NULL_BIT
  {
    hide OldContiguous, OldKeysGrow, OldPos;
  }

  lemma MakeUpgraded(cs: seq<Cell>, str: bytes, now: seq<Cell>, size: Word, varsize: nat)
    requires |now| == |cs| && OldPos(cs, |cs|) <= |str| && NewEnd(now) <= |str|
    requires NewValue(now, str) == Pack(OldPairs(cs, str)) && Marked(now, size, varsize)
    ensures Upgraded(cs, str, now, size, varsize)
  {
    hide Pack, OldPairs, NewEntries, WellFormed, Pairs, OldPos;
    PackRoundTrip(OldPairs(cs, str));
  }

  // ----- when an old value is not recognised -----

  /** A non-empty old value is upgraded unless it is short and its first pair is a null whose unused
      length field has its top bit set: exactly then the shortcut takes it for a new value. */
  lemma ShortcutMisjudges(size: Word, varsize: nat, cs: seq<Cell>)
    requires AcceptedOld(size, varsize, cs) && size > 0
    ensures TakenAsNew(size, varsize, cs) <==>
            varsize < 32768 && OldOf(cs[0]).valisnull && OldOf(cs[0]).vallen >= 32768
  {
    hide OldContiguous, OldKeysGrow;
    OldPosGrows(cs, 1, |cs|);
    assert OldPos(cs, 1) == OldLen(cs[0]) by { assert OldPos(cs, 0) == 0; }
  }

  /** The upgraded image is a well-formed value of the new format with the pairs of the old one. */
  predicate KeepsPairs(cs: seq<Cell>, str: bytes, now: seq<Cell>) {
    && NewEnd(now) <= |str| && OldPos(cs, |cs|) <= |str|
    && WellFormed(NewValue(now, str)) && Pairs(NewValue(now, str)) == OldPairs(cs, str)
  }

  /** The value is short, and its first pair is a null whose unused length has its top bit set. */
  predicate Misjudged(varsize: nat, cs: seq<Cell>) {
    varsize < 32768 && |cs| > 0 && OldOf(cs[0]).valisnull && OldOf(cs[0]).vallen >= 32768
  }

  /** What the shortcut takes for new never keeps its pairs: the first value is no longer null. */
  lemma TakenLosesPairs(size: Word, varsize: nat, cs: seq<Cell>, str: bytes)
    requires AcceptedOld(size, varsize, cs) && size > 0 && TakenAsNew(size, varsize, cs)
    ensures !KeepsPairs(cs, str, cs)
  {
    hide OldKeysGrow;
    ShortcutMisjudges(size, varsize, cs);
    assert OldOf(cs[0]).pos == OldPos(cs, 0) == 0;
    assert cs[0].second == 1;
    if KeepsPairs(cs, str, cs) {
      NewEntryAt(cs, 1);
      FirstValues(cs, str);
      assert false;
    }
  }

  lemma {:induction false} FirstValues(cs: seq<Cell>, str: bytes)
    requires |cs| > 0 && NewEnd(cs) <= |str| && OldPos(cs, |cs|) <= |str| && WellFormed(NewValue(cs, str))
    ensures Pairs(NewValue(cs, str))[0].val.None? <==> NewEntries(cs)[1].isnull
    ensures OldPairs(cs, str)[0].val.None? <==> OldOf(cs[0]).valisnull
  {
    hide OldOf, OldLen;
    OldPairAt(cs, str, 0);
    assert Pairs(NewValue(cs, str))[0] == PairAt(NewValue(cs, str), 0);
  }

  /** Over both outcomes of the shortcut: an accepted old value keeps its pairs if and only if it is not
      one of those. */
  lemma KeptIff(size: Word, varsize: nat, cs: seq<Cell>, str: bytes)
    ensures AcceptedOld(size, varsize, cs) && size > 0 ==>
              && size < FLAG && (TakenAsNew(size, varsize, cs) <==> Misjudged(varsize, cs))
              && (TakenAsNew(size, varsize, cs) ==> !KeepsPairs(cs, str, cs))
    ensures forall now, size1, varsize1 | Upgraded(cs, str, now, size1, varsize1) :: KeepsPairs(cs, str, now)
  {
    hide OldKeysGrow, OldContiguous, KeepsPairs;
    if AcceptedOld(size, varsize, cs) && size > 0 {
      ShortcutMisjudges(size, varsize, cs);
      if TakenAsNew(size, varsize, cs) { TakenLosesPairs(size, varsize, cs, str); }
    }
    forall now, size1, varsize1 | Upgraded(cs, str, now, size1, varsize1) ensures KeepsPairs(cs, str, now) {
      UpgradedKeeps(cs, str, now, size1, varsize1);
    }
  }

  lemma UpgradedKeeps(cs: seq<Cell>, str: bytes, now: seq<Cell>, size: Word, varsize: nat)
    requires Upgraded(cs, str, now, size, varsize)
    ensures KeepsPairs(cs, str, now)
  {
  }

  /** Such a value, one pair "a" => NULL, read after the shortcut: "a" => "". */
  lemma MisjudgedExample()
    ensures var cs := [Cell(0x8000_0001, 1)];
            && AcceptedOld(1, 17, cs) && TakenAsNew(1, 17, cs)
            && OldPos(cs, 1) <= 1 && OldPairs(cs, [97]) == [Pair([97], None)]
            && NewEnd(cs) <= 1 && WellFormed(NewValue(cs, [97]))
            && Pairs(NewValue(cs, [97])) == [Pair([97], Some([]))]
  {
    var cs := [Cell(0x8000_0001, 1)];
    assert OldOf(cs[0]) == OldEntry(1, 32768, true, 0);
    assert OldPos(cs, 0) == 0 && OldPos(cs, 1) == 1;
    assert OldPairs(cs, [97])[0] == OldPair(cs, [97], 0);
    var h := NewValue(cs, [97]);
    NewEntryAt(cs, 0);
    NewEntryAt(cs, 1);
    assert h.ents == [HEntry(true, false, 1), HEntry(false, false, 1)] && h.str == [97];
    OneEmptyValue(h);
  }

  lemma OneEmptyValue(h: HStore)
    requires h.ents == [HEntry(true, false, 1), HEntry(false, false, 1)] && h.str == [97]
    ensures WellFormed(h) && Pairs(h) == [Pair([97], Some([]))]
  {
    assert EntryOk(h.ents, 0) && EntryOk(h.ents, 1);
    assert h.str[0..1] == [97] && h.str[1..1] == [];
    assert Piece(h, 0) == [97] && Piece(h, 1) == [];
    assert Pairs(h)[0] == PairAt(h, 0);
  }
}
