/** How the text of an hstore is written, without regard to how it is read: the parser's result is
    exactly the pairs that the text writes. */
module HStoreWriting {
  import opened Bytes
  import opened Common
  import opened HStorePairs
  import opened HStoreText

  // ----- words -----

  predicate White(c: byte) { c in {9, 10, 11, 12, 13, 32} }

  predicate AllWhite(t: bytes, p: nat, q: nat) { p <= q <= |t| && forall i | p <= i < q :: White(t[i]) }

  /** A byte that stands for itself: between quotes, any but a quote; in a bare word, any but white space
      and what ends the word, in a key `=` and in a value `,`. */
  predicate Literal(c: byte, quoted: bool, key: bool) {
    c != BACKSLASH && if quoted then c != QUOTE else !White(c) && c != if key then EQUALS else COMMA
  }

  /** t[p..q] is the bytes of w, each as itself or after a backslash. */
  predicate Body(t: bytes, p: nat, q: nat, w: bytes, quoted: bool, key: bool)
    decreases |w|
  {
    p <= q <= |t| &&
    if |w| == 0 then p == q else
    p < q &&
    if t[p] == BACKSLASH then p + 2 <= q && t[p + 1] == w[0] && Body(t, p + 2, q, w[1..], quoted, key)
    else t[p] == w[0] && Literal(w[0], quoted, key) && Body(t, p + 1, q, w[1..], quoted, key)
  }

  /** t[p..q] writes the word w: between quotes, or bare and not empty. A bare word does not begin with a
      quote; a bare value may begin with a comma. */
  predicate WritesWord(t: bytes, p: nat, q: nat, w: bytes, quoted: bool, key: bool) {
    p < q <= |t| &&
    if quoted then p + 2 <= q && t[p] == QUOTE == t[q - 1] && Body(t, p + 1, q - 1, w, true, key)
    else |w| > 0 && t[p] != QUOTE &&
         if t[p] == COMMA && !key then w[0] == COMMA && Body(t, p + 1, q, w[1..], false, key)
         else Body(t, p, q, w, false, key)
  }

  /** The 16 spellings of null. */
  predicate NullWord(w: bytes) {
    |w| == 4 && w[0] in {78, 110} && w[1] in {85, 117} && w[2] in {76, 108} && w[3] in {76, 108}
  }

  // ----- pairs -----

  /** Where the parts of a pair stand, how its words are written, and the word of its value. */
  datatype Layout = Layout(key: nat, keyEnd: nat, keyQuoted: bool, arrow: nat,
                           val: nat, valEnd: nat, valQuoted: bool, word: bytes, end: nat)

  /** From p on: key, `=>` and value, with white space before, between and after; the value is null if it
      is bare and spells null, and otherwise its word. */
  predicate WritesPair(t: bytes, p: nat, l: Layout, r: Raw) {
    && AllWhite(t, p, l.key) && WritesWord(t, l.key, l.keyEnd, r.key, l.keyQuoted, true) && |r.key| <= 0x3FFF_FFFF
    && AllWhite(t, l.keyEnd, l.arrow) && AllWhite(t, l.arrow + 2, l.val)
    && t[l.arrow] == EQUALS && t[l.arrow + 1] == GREATER && WritesWord(t, l.val, l.valEnd, l.word, l.valQuoted, false)
    && |l.word| <= 0x3FFF_FFFF && AllWhite(t, l.valEnd, l.end)
    && r.val == (if !l.valQuoted && NullWord(l.word) then None else Some(l.word)) && r.needfree
  }

  /** From p on: pairs with commas between them, perhaps one after the last, and white space anywhere. */
  predicate WritesPairs(t: bytes, p: nat, ls: seq<Layout>, rs: seq<Raw>)
    decreases |rs|
  {
    |ls| == |rs| &&
    if |rs| == 0 then AllWhite(t, p, |t|) else
    WritesPair(t, p, ls[0], rs[0]) &&
    if ls[0].end == |t| then |rs| == 1
    else t[ls[0].end] == COMMA && WritesPairs(t, ls[0].end + 1, ls[1..], rs[1..])
  }

  // ----- words are read as written -----

  lemma {:induction false} SkipWhite(t: bytes, p: nat, q: nat, ignoreeq: bool)
    requires AllWhite(t, p, q)
    ensures ValueAt(t, p, ignoreeq) == ValueAt(t, q, ignoreeq) && Arrow(t, p) == Arrow(t, q)
    ensures Delimiter(t, p) == Delimiter(t, q)
    decreases q - p
  {
    if p < q { SkipWhite(t, p + 1, q, ignoreeq); }
  }

  lemma {:induction false} QuotedBody(t: bytes, p: nat, q: nat, w: bytes, key: bool)
    requires Body(t, p, q, w, true, key) && q < |t| && t[q] == QUOTE
    ensures Quoted(t, p) == Some(Word(w, q + 1))
    decreases |w|
  {
    if |w| > 0 {
      QuotedBody(t, if t[p] == BACKSLASH then p + 2 else p + 1, q, w[1..], key);
      assert w == [w[0]] + w[1..];
    }
  }

  /** Where a bare word ends: at the end of the text, at white space or at the byte that is not its own. */
  predicate BareEnds(t: bytes, q: nat, key: bool) {
    q == |t| || (q < |t| && (White(t[q]) || t[q] == if key then EQUALS else COMMA))
  }

  /** The position after a bare word, white space at its end taken along. */
  function PastBare(t: bytes, q: nat): nat { if q < |t| && White(t[q]) then q + 1 else q }

  lemma {:induction false} BareBody(t: bytes, p: nat, q: nat, w: bytes, key: bool)
    requires Body(t, p, q, w, false, key) && BareEnds(t, q, key)
    ensures Bare(t, p, !key) == Some(Word(w, PastBare(t, q)))
    decreases |w|
  {
    if |w| > 0 {
      BareBody(t, if t[p] == BACKSLASH then p + 2 else p + 1, q, w[1..], key);
      assert w == [w[0]] + w[1..];
    }
  }

  /** The position after a word. */
  function Past(t: bytes, q: nat, quoted: bool): nat { if quoted then q else PastBare(t, q) }

  lemma WordIsRead(t: bytes, p: nat, q: nat, w: bytes, quoted: bool, key: bool)
    requires WritesWord(t, p, q, w, quoted, key) && (!quoted ==> BareEnds(t, q, key))
    ensures ValueAt(t, p, !key) == Got(w, Past(t, q, quoted), quoted)
  {
    hide Body;
    if quoted {
      QuotedBody(t, p + 1, q - 1, w, key);
    } else if t[p] == COMMA && !key {
      BareBody(t, p + 1, q, w[1..], key);
      assert w == [w[0]] + w[1..];
    } else {
      BareBody(t, p, q, w, key);
      FirstByte(t, p, q, w, key);
      BareStep(t, p, !key);
    }
  }

  lemma FirstByte(t: bytes, p: nat, q: nat, w: bytes, key: bool)
    requires Body(t, p, q, w, false, key) && |w| > 0
    ensures t[p] == BACKSLASH || (!White(t[p]) && t[p] != if key then EQUALS else COMMA)
  {
  }

  lemma BareStep(t: bytes, p: nat, ignoreeq: bool)
    requires p < |t| && !White(t[p]) && t[p] != if ignoreeq then COMMA else EQUALS
    ensures t[p] != BACKSLASH ==> Bare(t, p, ignoreeq) == Cons(t[p], Bare(t, p + 1, ignoreeq))
  {
  }

  // ----- words that are read are written -----

  lemma {:induction false} QuotedIsWritten(t: bytes, p: nat, key: bool)
    requires p <= |t| && Quoted(t, p).Some?
    ensures var w := Quoted(t, p).value;
            p < w.next <= |t| && t[w.next - 1] == QUOTE && Body(t, p, w.next - 1, w.text, true, key)
    decreases |t| - p
  {
    if t[p] == BACKSLASH { QuotedIsWritten(t, p + 2, key); }
    else if t[p] != QUOTE { QuotedIsWritten(t, p + 1, key); }
  }

  lemma {:induction false} BareIsWritten(t: bytes, p: nat, key: bool) returns (q: nat)
    requires p <= |t| && Bare(t, p, !key).Some?
    ensures var w := Bare(t, p, !key).value;
            p <= q <= |t| && BareEnds(t, q, key) && w.next == PastBare(t, q) && Body(t, p, q, w.text, false, key)
    decreases |t| - p
  {
    if p == |t| || t[p] == (if key then EQUALS else COMMA) || White(t[p]) { q := p; }
    else if t[p] == BACKSLASH { q := BareIsWritten(t, p + 2, key); }
    else { q := BareIsWritten(t, p + 1, key); }
  }

  lemma {:induction false} WordIsWritten(t: bytes, p: nat, key: bool) returns (start: nat, q: nat)
    requires p <= |t| && ValueAt(t, p, !key).Got?
    ensures var v := ValueAt(t, p, !key);
            && AllWhite(t, p, start) && WritesWord(t, start, q, v.word, v.escaped, key)
            && (!v.escaped ==> BareEnds(t, q, key)) && v.next == Past(t, q, v.escaped)
    decreases |t| - p
  {
    hide Body;
    start := p;
    if t[p] == QUOTE {
      QuotedIsWritten(t, p + 1, key);
      q := ValueAt(t, p, !key).next;
    } else if White(t[p]) {
      start, q := WordIsWritten(t, p + 1, key);
    } else if t[p] == COMMA && !key {
      q := BareIsWritten(t, p + 1, key);
    } else {
      BareStep(t, p, !key);
      q := BareIsWritten(t, p, key);
      NotEmpty(t, p, q, key);
    }
  }

  lemma NotEmpty(t: bytes, p: nat, q: nat, key: bool)
    requires p < |t| && Bare(t, p, !key).Some? && !White(t[p]) && t[p] != if key then EQUALS else COMMA
    requires Body(t, p, q, Bare(t, p, !key).value.text, false, key)
    ensures |Bare(t, p, !key).value.text| > 0 && p < q
  {
  }

  lemma {:induction false} ArrowIsWritten(t: bytes, p: nat) returns (a: nat)
    requires p <= |t| && Arrow(t, p).At?
    ensures AllWhite(t, p, a) && a + 2 <= |t| && t[a] == EQUALS && t[a + 1] == GREATER && Arrow(t, p).next == a + 2
    decreases |t| - p
  {
    if t[p] == EQUALS { a := p; } else { a := ArrowIsWritten(t, p + 1); }
  }

  lemma {:induction false} DelimiterIsWritten(t: bytes, p: nat) returns (d: nat)
    requires p <= |t| && !Delimiter(t, p).Wrong?
    ensures AllWhite(t, p, d) && (d == |t| || t[d] == COMMA)
    ensures Delimiter(t, p) == if d == |t| then End else At(d + 1)
    decreases |t| - p
  {
    if p == |t| || t[p] == COMMA { d := p; } else { d := DelimiterIsWritten(t, p + 1); }
  }

  lemma {:induction false} NothingLeft(t: bytes, p: nat)
    requires p <= |t|
    ensures ValueAt(t, p, false).NoValue? <==> AllWhite(t, p, |t|)
    decreases |t| - p
  {
    if p < |t| && White(t[p]) { NothingLeft(t, p + 1); }
    if p < |t| && !White(t[p]) {
      assert !AllWhite(t, p, |t|);
      if t[p] == BACKSLASH { assert !Scanned(Bare(t, p, false), false).NoValue?; }
    }
  }

  lemma NullIff(w: bytes)
    ensures NullWord(w) <==> SpellsNull(w)
  {
  }

  // ----- pairs -----

  /** The pairs after one that ends at position d, the end or a comma. */
  function After(t: bytes, d: nat): Parsed
    requires d <= |t|
  {
    if d == |t| then Ok([]) else Items(t, d + 1)
  }

  /** White space up to a byte that is none, where one byte of it may have been taken along. */
  lemma PastWhite(t: bytes, q: nat, a: nat, quoted: bool)
    requires AllWhite(t, q, a) && (a < |t| ==> !White(t[a]))
    ensures q <= Past(t, q, quoted) <= a && AllWhite(t, Past(t, q, quoted), a)
  {
  }

  lemma KeyIsRead(t: bytes, p: nat, l: Layout, r: Raw)
    requires WritesPair(t, p, l, r)
    ensures Items(t, p) == FromValue(t, r.key, l.arrow + 2)
  {
    hide WritesWord, Literal, Items, FromValue, ValueAt, Arrow;
    PastWhite(t, l.keyEnd, l.arrow, l.keyQuoted);
    WordIsRead(t, l.key, l.keyEnd, r.key, l.keyQuoted, true);
    SkipWhite(t, p, l.key, false);
    SkipWhite(t, Past(t, l.keyEnd, l.keyQuoted), l.arrow, false);
    OnWords(t, p, r.key);
    OnMarks(t, l.arrow, r.key);
    OnMarks(t, l.arrow + 1, r.key);
  }

  lemma ValueIsRead(t: bytes, p: nat, l: Layout, r: Raw)
    requires WritesPair(t, p, l, r) && (l.end == |t| || t[l.end] == COMMA)
    ensures FromValue(t, r.key, l.arrow + 2) == Before([r], After(t, l.end))
  {
    hide WritesWord, Literal, Items, FromValue, ValueAt, Delimiter, NullWord, SpellsNull;
    PastWhite(t, l.valEnd, l.end, l.valQuoted);
    WordIsRead(t, l.val, l.valEnd, l.word, l.valQuoted, false);
    SkipWhite(t, l.arrow + 2, l.val, true);
    SkipWhite(t, Past(t, l.valEnd, l.valQuoted), l.end, true);
    OnWords(t, l.arrow + 2, r.key);
    OnMarks(t, l.end, r.key);
    NullIff(l.word);
  }

  lemma KeyIsWritten(t: bytes, p: nat) returns (k: nat, q: nat, quoted: bool, a: nat, w: bytes)
    requires p <= |t| && Items(t, p).Ok? && !ValueAt(t, p, false).NoValue?
    ensures AllWhite(t, p, k) && WritesWord(t, k, q, w, quoted, true) && |w| <= MAX_LEN && AllWhite(t, q, a)
    ensures a + 2 <= |t| && t[a] == EQUALS && t[a + 1] == GREATER && Items(t, p) == FromValue(t, w, a + 2)
  {
    hide WritesWord, Items, FromValue, ValueAt, Arrow;
    OnWords(t, p, []);
    k, q := WordIsWritten(t, p, true);
    var v := ValueAt(t, p, false);
    w, quoted := v.word, v.escaped;
    a := ArrowIsWritten(t, v.next);
  }

  lemma ValueIsWritten(t: bytes, p: nat, key: bytes) returns (v: nat, q: nat, quoted: bool, w: bytes, d: nat, r: Raw)
    requires p <= |t| && FromValue(t, key, p).Ok?
    ensures AllWhite(t, p, v) && WritesWord(t, v, q, w, quoted, false) && |w| <= MAX_LEN && AllWhite(t, q, d)
    ensures (d == |t| || t[d] == COMMA) && After(t, d).Ok? && FromValue(t, key, p) == Before([r], After(t, d))
    ensures r == Raw(key, if !quoted && NullWord(w) then None else Some(w), true) && p < d
  {
    hide Body, Literal, Items, FromValue, ValueAt, Delimiter, NullWord, SpellsNull;
    OnWords(t, p, key);
    v, q := WordIsWritten(t, p, false);
    var got := ValueAt(t, p, true);
    w, quoted := got.word, got.escaped;
    d := DelimiterIsWritten(t, got.next);
    r := PairOf(key, w, quoted);
    NullIff(w);
  }

  lemma {:induction false} WrittenIsParsed(t: bytes, p: nat, ls: seq<Layout>, rs: seq<Raw>)
    requires p <= |t| && WritesPairs(t, p, ls, rs)
    ensures Items(t, p) == Ok(rs)
    decreases |rs|
  {
    hide WritesPair, Items, FromValue, ValueAt;
    if |rs| == 0 {
      NothingLeft(t, p);
      OnWords(t, p, []);
    } else {
      var l, r := ls[0], rs[0];
      PairEnds(t, p, l, r);
      KeyIsRead(t, p, l, r);
      ValueIsRead(t, p, l, r);
      if l.end < |t| { WrittenIsParsed(t, l.end + 1, ls[1..], rs[1..]); }
      assert rs == [r] + rs[1..];
    }
  }

  lemma PairEnds(t: bytes, p: nat, l: Layout, r: Raw)
    requires WritesPair(t, p, l, r)
    ensures p < l.end <= |t|
  {
    hide Body;
  }

  lemma {:induction false} ParsedIsWritten(t: bytes, p: nat) returns (ls: seq<Layout>)
    requires p <= |t| && Items(t, p).Ok?
    ensures WritesPairs(t, p, ls, Items(t, p).pairs)
    decreases |t| - p
  {
    hide WritesWord, Items, FromValue, ValueAt, NullWord;
    NothingLeft(t, p);
    OnWords(t, p, []);
    if ValueAt(t, p, false).NoValue? {
      ls := [];
    } else {
      var k, q, kq, a, key := KeyIsWritten(t, p);
      var v, vq, quoted, w, d, r := ValueIsWritten(t, a + 2, key);
      var l := Layout(k, q, kq, a, v, vq, quoted, w, d);
      PairEnds(t, p, l, r);
      var more: seq<Layout> := [];
      if d < |t| { more := ParsedIsWritten(t, d + 1); }
      ls := [l] + more;
      assert ls[1..] == more && ([r] + After(t, d).pairs)[1..] == After(t, d).pairs;
    }
  }

  /** The text of a whole hstore. */
  ghost predicate Writes(t: bytes, rs: seq<Raw>) { exists ls :: WritesPairs(t, 0, ls, rs) }

  /** A text is parsed to exactly the pairs it writes, and to an error if it writes none. */
  lemma ParsedIff(t: bytes, rs: seq<Raw>)
    ensures Items(t, 0) == Ok(rs) <==> Writes(t, rs)
  {
    hide WritesPairs, Items;
    if Items(t, 0) == Ok(rs) {
      var ls := ParsedIsWritten(t, 0);
      assert WritesPairs(t, 0, ls, rs);
    }
    if Writes(t, rs) {
      var ls :| WritesPairs(t, 0, ls, rs);
      WrittenIsParsed(t, 0, ls, rs);
    }
  }
}
