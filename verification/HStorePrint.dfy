/** Printing an hstore within the buffer computed for it, and reading the text back. */
module HStorePrint {
  import opened Bytes
  import opened Common
  import opened HStoreBuild
  import opened HStoreFormat
  import opened HStorePairs
  import opened HStoreText

  // ----- the printed text -----

  function EscapedByte(c: byte): bytes { if c == QUOTE || c == BACKSLASH then [BACKSLASH, c] else [c] }

  function Escaped(w: bytes): (e: bytes)
    ensures |w| <= |e| <= 2 * |w|
  {
    if |w| == 0 then [] else EscapedByte(w[0]) + Escaped(w[1..])
  }

  predicate Special(c: byte) { c == QUOTE || c == BACKSLASH }

  /** The number of quotes and backslashes. */
  function Specials(w: bytes): nat {
    if |w| == 0 then 0 else (if Special(w[0]) then 1 else 0) + Specials(w[1..])
  }

  lemma {:induction false} EscapedLength(w: bytes)
    ensures |Escaped(w)| == |w| + Specials(w)
    decreases |w|
  {
    if |w| > 0 { EscapedLength(w[1..]); }
  }

  lemma EscapedFirst(w: bytes)
    requires |w| > 0
    ensures Escaped(w) == (if Special(w[0]) then [BACKSLASH, w[0]] else [w[0]]) + Escaped(w[1..])
    ensures Specials(w) == (if Special(w[0]) then 1 else 0) + Specials(w[1..])
  {
  }

  /** Every byte is printed as itself, with a backslash more for each quote and backslash and for no
      other byte. */
  lemma {:induction false} EscapedBy(w: bytes, i: nat)
    requires i < |w|
    ensures |Escaped(w)| == |w| + Specials(w)
    ensures var e, at := Escaped(w), i + Specials(w[..i]);
            if Special(w[i]) then at + 1 < |e| && e[at] == BACKSLASH && e[at + 1] == w[i] else at < |e| && e[at] == w[i]
    decreases |w|
  {
    hide Escaped, Specials, Special;
    EscapedLength(w);
    EscapedFirst(w);
    if i > 0 {
      EscapedBy(w[1..], i - 1);
      EscapedFirst(w[..i]);
      assert w[..i][1..] == w[1..][..i - 1];
    } else {
      assert w[..0] == [];
      NoSpecials();
    }
  }

  lemma NoSpecials()
    ensures Specials([]) == 0
  {
  }

  const NULL_TEXT: bytes := [78, 85, 76, 76]

  function QuotedText(w: bytes): bytes { [QUOTE] + Escaped(w) + [QUOTE] }

  function ValText(v: Option<bytes>): bytes { if v.None? then NULL_TEXT else QuotedText(v.value) }

  function PairText(p: Pair): bytes { QuotedText(p.key) + [EQUALS, GREATER] + ValText(p.val) }

  /** The first n pairs, with a comma and a space after every pair but the last of all. */
  function TextTo(ps: seq<Pair>, n: nat): bytes
    requires n <= |ps|
  {
    if n == 0 then [] else TextTo(ps, n - 1) + PairText(ps[n - 1]) + Separator(ps, n)
  }

  function Separator(ps: seq<Pair>, n: nat): bytes { if n < |ps| then [COMMA, SPACE] else [] }

  function Text(ps: seq<Pair>): bytes { TextTo(ps, |ps|) }

  /** The space hstore_out reserves for a pair. */
  function Reserve(p: Pair): nat { 6 + 2 * |p.key| + 2 + if p.val.None? then 2 else 2 * |p.val.value| }

  function ReserveTo(ps: seq<Pair>, n: nat): nat
    requires n <= |ps|
  {
    if n == 0 then 0 else ReserveTo(ps, n - 1) + Reserve(ps[n - 1])
  }

  /** The text of n pairs takes no more than their reserves, and two bytes less once it is complete. */
  lemma {:induction false} TextFits(ps: seq<Pair>, n: nat)
    requires n <= |ps|
    ensures |TextTo(ps, n)| + (if n == |ps| && n > 0 then 2 else 0) <= ReserveTo(ps, n)
  {
    hide Escaped;
    if n > 0 { TextFits(ps, n - 1); }
  }

  lemma {:induction false} ReserveGrows(ps: seq<Pair>, n: nat, m: nat)
    requires n <= m <= |ps|
    ensures ReserveTo(ps, n) <= ReserveTo(ps, m)
  {
    if n < m { ReserveGrows(ps, n, m - 1); }
  }

  // ----- writing it -----

  /** The output buffer and the place of the next byte. */
  class Writer {
    const buf: array<byte>
    var ptr: nat

    constructor (buflen: nat)
      ensures Valid() && buf.Length == buflen && Written() == [] && fresh(buf)
    {
      buf := new byte[buflen];
      ptr := 0;
    }

    ghost predicate Valid()
      reads this
    {
      ptr <= buf.Length
    }

    ghost function Written(): (w: bytes)
      requires Valid()
      reads this, buf
      ensures |w| == ptr
    {
      buf[..ptr]
    }

    /** *ptr++ = c */
    method Put(c: byte)
      requires Valid() && ptr < buf.Length
      modifies this, buf
      ensures Valid() && Written() == old(Written()) + [c]
    {
      buf[ptr] := c;
      ptr := ptr + 1;
    }

    /** cpw */
    method Cpw(src: bytes)
      requires Valid() && ptr + |Escaped(src)| <= buf.Length
      modifies this, buf
      ensures Valid() && Written() == old(Written()) + Escaped(src)
    {
      hide Escaped;
      ghost var was := Written();
      EscapedStep(src, 0);
      assert src[0..] == src;
      for i := 0 to |src|
        invariant Valid() && ptr + |Escaped(src[i..])| <= buf.Length
        invariant Written() + Escaped(src[i..]) == was + Escaped(src)
      {
        EscapedStep(src, i);
        ghost var w := Written();
        if src[i] == QUOTE || src[i] == BACKSLASH {
          Put(BACKSLASH);
        }
        Put(src[i]);
        Regroup(w, Written(), src, i);
      }
      EscapedStep(src, |src|);
      assert Written() + [] == Written();
    }

    method PutQuoted(src: bytes)
      requires Valid() && ptr + |Escaped(src)| + 2 <= buf.Length
      modifies this, buf
      ensures Valid() && Written() == old(Written()) + QuotedText(src)
    {
      hide Escaped, Written;
      ghost var w := Written();
      Put(QUOTE);
      Cpw(src);
      Put(QUOTE);
      assert w + [QUOTE] + Escaped(src) + [QUOTE] == w + QuotedText(src);
    }

    method PutArrow()
      requires Valid() && ptr + 2 <= buf.Length
      modifies this, buf
      ensures Valid() && Written() == old(Written()) + [EQUALS, GREATER]
    {
      hide Written;
      ghost var w := Written();
      Put(EQUALS);
      Put(GREATER);
      assert w + [EQUALS] + [GREATER] == w + [EQUALS, GREATER];
    }

    method PutNull()
      requires Valid() && ptr + 4 <= buf.Length
      modifies this, buf
      ensures Valid() && Written() == old(Written()) + NULL_TEXT
    {
      hide Written;
      ghost var w := Written();
      Put(78);
      Put(85);
      Put(76);
      Put(76);
      assert w + [78] + [85] + [76] + [76] == w + NULL_TEXT;
    }

    /** What hstore_out writes for one pair. */
    method PutPair(p: Pair)
      requires Valid() && ptr + |PairText(p)| <= buf.Length
      modifies this, buf
      ensures Valid() && Written() == old(Written()) + PairText(p)
    {
      hide Escaped, Written;
      ghost var w := Written();
      PutQuoted(p.key);
      PutArrow();
      if p.val.None? {
        PutNull();
      } else {
        PutQuoted(p.val.value);
      }
      ThreeParts(w, QuotedText(p.key), [EQUALS, GREATER], ValText(p.val));
    }
  }

  lemma ThreeParts(w: bytes, a: bytes, b: bytes, c: bytes)
    ensures w + a + b + c == w + (a + b + c)
  {
  }

  lemma EscapedStep(src: bytes, i: nat)
    requires i <= |src|
    ensures i == |src| ==> Escaped(src[i..]) == []
    ensures i < |src| ==> Escaped(src[i..]) == EscapedByte(src[i]) + Escaped(src[i + 1..])
  {
    if i < |src| { assert src[i..][1..] == src[i + 1..]; }
  }

  lemma Regroup(w: bytes, w': bytes, src: bytes, i: nat)
    requires i < |src|
    requires w' == w + EscapedByte(src[i])
    ensures w' + Escaped(src[i + 1..]) == w + Escaped(src[i..])
  {
    hide Escaped;
    EscapedStep(src, i);
    var e := EscapedByte(src[i]);
    assert w + e + Escaped(src[i + 1..]) == w + (e + Escaped(src[i + 1..]));
  }

  /** hstore_out: the text of the pairs. Every byte, the final zero included, falls inside the buffer. */
  method HStoreOut(hs: HStore) returns (out: bytes)
    requires WellFormed(hs)
    ensures out == Text(Pairs(hs))
  {
    hide Pairs, PairText, WellFormed;
    var count := Count(hs);
    if count == 0 { return []; }
    var buflen: nat := 0;
    for i := 0 to count
      invariant buflen == ReserveTo(Pairs(hs), i)
    {
      buflen := buflen + 6 + 2 * |Pairs(hs)[i].key|;
      buflen := buflen + 2 + if Pairs(hs)[i].val.None? then 2 else 2 * |Pairs(hs)[i].val.value|;
    }
    ghost var ps := Pairs(hs);
    var w := new Writer(buflen);
    for i := 0 to count
      invariant fresh(w) && fresh(w.buf) && w.Valid() && w.buf.Length == buflen && w.Written() == TextTo(ps, i)
    {
      TextFits(ps, i + 1);
      ReserveGrows(ps, i + 1, count);
      w.PutPair(Pairs(hs)[i]);
      if i + 1 != count {
        w.Put(COMMA);
        w.Put(SPACE);
        TwoMore(TextTo(ps, i) + PairText(ps[i]));
      } else {
        assert TextTo(ps, i) + PairText(ps[i]) + [] == TextTo(ps, i) + PairText(ps[i]);
      }
    }
    TextFits(ps, count);
    w.buf[w.ptr] := 0;
    out := w.buf[..w.ptr];
  }

  lemma TwoMore(t: bytes)
    ensures t + [COMMA] + [SPACE] == t + [COMMA, SPACE]
  {
  }
}
