/** Building a packed hstore item by item. */
module HStoreBuild {
  import opened Bytes
  import opened Common
  import opened HStoreFormat

  // ----- memory -----

  /** A byte of the new value's memory: unset, part of a 32-bit entry, or a byte of a string. */
  datatype Unit = Junk | Part(entry: HEntry, quarter: nat) | Char(c: byte)

  function Parts(e: HEntry): (us: seq<Unit>)
    ensures |us| == 4
  {
    [Part(e, 0), Part(e, 1), Part(e, 2), Part(e, 3)]
  }

  /** The bytes of an array of entries. */
  function EntryImage(es: seq<HEntry>): (us: seq<Unit>)
    ensures |us| == 4 * |es|
  {
    if |es| == 0 then [] else EntryImage(es[..|es| - 1]) + Parts(es[|es| - 1])
  }

  function CharImage(s: bytes): (us: seq<Unit>)
    ensures |us| == |s|
  {
    seq(|s|, i requires 0 <= i < |s| => Char(s[i]))
  }

  /** What the first n entries in memory read as. */
  function EntriesIn(m: seq<Unit>, n: nat): (es: seq<HEntry>)
    requires 4 * n <= |m|
    ensures |es| == n
  {
    seq(n, i requires 0 <= i < n => if m[4 * i].Part? then m[4 * i].entry else HEntry(false, false, 0))
  }

  function CharsIn(m: seq<Unit>, at: nat, n: nat): (s: bytes)
    requires at + n <= |m|
    ensures |s| == n
  {
    seq(n, i requires 0 <= i < n => if m[at + i].Char? then m[at + i].c else 0)
  }

  lemma {:induction false} ImageAt(es: seq<HEntry>, i: nat)
    requires i < |es|
    ensures EntryImage(es)[4 * i..4 * i + 4] == Parts(es[i])
    decreases |es|
  {
    if i < |es| - 1 {
      var init := es[..|es| - 1];
      ImageAt(init, i);
      assert EntryImage(es)[4 * i..4 * i + 4] == EntryImage(init)[4 * i..4 * i + 4];
    }
  }

  lemma ReadEntries(m: seq<Unit>, es: seq<HEntry>)
    requires 4 * |es| <= |m| && m[..4 * |es|] == EntryImage(es)
    ensures EntriesIn(m, |es|) == es
  {
    hide EntryImage;
    forall i | 0 <= i < |es| ensures EntriesIn(m, |es|)[i] == es[i] {
      ImageAt(es, i);
      assert m[4 * i] == EntryImage(es)[4 * i..4 * i + 4][0];
    }
  }

  lemma ReadChars(m: seq<Unit>, at: nat, s: bytes)
    requires at + |s| <= |m| && m[at..at + |s|] == CharImage(s)
    ensures CharsIn(m, at, |s|) == s
  {
    forall i | 0 <= i < |s| ensures CharsIn(m, at, |s|)[i] == s[i] { assert m[at + i] == CharImage(s)[i]; }
  }

  lemma PushEntry(es: seq<HEntry>, e: HEntry)
    ensures EntryImage(es + [e]) == EntryImage(es) + Parts(e)
  {
    assert (es + [e])[..|es|] == es;
  }

  /** memcpy of a string */
  method CopyChars(mem: array<Unit>, at: nat, s: bytes)
    requires at + |s| <= mem.Length
    modifies mem
    ensures mem[at..at + |s|] == CharImage(s) && mem[..at] == old(mem[..at])
  {
    for i := 0 to |s|
      invariant mem[at..at + i] == CharImage(s)[..i] && mem[..at] == old(mem[..at])
    {
      mem[at + i] := Char(s[i]);
      assert mem[at..at + i + 1] == mem[at..at + i] + [Char(s[i])];
    }
  }

  /** The space the strings of pair i take. */
  function ItemSize(h: HStore, i: nat): nat
    requires WellFormed(h) && i < Count(h)
  {
    UnpackedPair(h, i); StartOf(h, i + 1) - StartOf(h, i)
  }

  /** The space of the strings from pair i on. */
  function RestSize(h: HStore, i: nat): nat
    requires WellFormed(h) && i <= Count(h)
  {
    |h.str| - StartOf(h, i)
  }

  lemma RestStep(h: HStore, i: nat)
    requires WellFormed(h) && i < Count(h)
    ensures RestSize(h, i) == ItemSize(h, i) + RestSize(h, i + 1)
  {
    UnpackedPair(h, i);
  }

  lemma RestAll(h: HStore)
    requires WellFormed(h)
    ensures RestSize(h, 0) == |h.str| && RestSize(h, Count(h)) == 0
  {
    if Count(h) > 0 { assert EntryOk(h.ents, 0); }
  }

  /** A value under construction, in the memory after its header: entries from the start, strings after
      the entries of `room` pairs, which is how many the header announces for now. */
  class Builder {
    const mem: array<Unit>
    const room: nat
    var dent: nat // entries written
    var dptr: nat // bytes of strings written
    ghost var ps: seq<Pair>

    /** palloc of a value with that many pairs and that much string space */
    constructor (room: nat, space: nat)
      ensures Valid() && ps == [] && fresh(mem) && this.room == room && mem.Length == 8 * room + space
      ensures HasRoom(room, space)
    {
      this.room := room;
      mem := new Unit[8 * room + space](_ => Junk);
      dent, dptr, ps := 0, 0, [];
    }

    ghost predicate InBounds()
      reads this`dent, this`dptr
    {
      dent <= 2 * room && 8 * room + dptr <= mem.Length
    }

    ghost function Entries(): (us: seq<Unit>)
      requires InBounds()
      reads this`dent, this`dptr, mem
    {
      mem[..4 * dent]
    }

    ghost function Strings(): (us: seq<Unit>)
      requires InBounds()
      reads this`dent, this`dptr, mem
    {
      mem[8 * room..8 * room + dptr]
    }

    ghost predicate Valid()
      reads this, mem
    {
      && InBounds() && dent == 2 * |ps| && dptr == |PackStr(ps)|
      && Entries() == EntryImage(RawEnts(ps)) && Strings() == CharImage(PackStr(ps))
    }

    /** That many more pairs with that many bytes of strings fit the allocation. */
    predicate HasRoom(pairs: nat, space: nat)
      reads this`dent, this`dptr
    {
      dent + 2 * pairs <= 2 * room && 8 * room + dptr + space <= mem.Length
    }

    /** (dent)++->entry = e */
    method PutEntry(e: HEntry)
      requires InBounds() && dent < 2 * room
      modifies this`dent, mem
      ensures InBounds() && dent == old(dent) + 1
      ensures Entries() == old(Entries()) + Parts(e) && Strings() == old(Strings())
    {
      var at := 4 * dent;
      mem[at], mem[at + 1], mem[at + 2], mem[at + 3] := Part(e, 0), Part(e, 1), Part(e, 2), Part(e, 3);
      dent := dent + 1;
    }

    /** memcpy to dptr, which advances */
    method PutChars(s: bytes)
      requires InBounds() && 8 * room + dptr + |s| <= mem.Length
      modifies this`dptr, mem
      ensures InBounds() && dptr == old(dptr) + |s|
      ensures Strings() == old(Strings()) + CharImage(s) && Entries() == old(Entries())
    {
      var at := 8 * room + dptr;
      CopyChars(mem, at, s);
      assert mem[8 * room..at] == mem[..at][8 * room..] == old(mem[..at])[8 * room..] == old(Strings());
      assert mem[..4 * dent] == mem[..at][..4 * dent] == old(mem[..at])[..4 * dent];
      assert mem[8 * room..at + |s|] == mem[8 * room..at] + mem[at..at + |s|];
      dptr := dptr + |s|;
    }

    /** HS_COPYITEM: key and value are contiguous in the source string. */
    method CopyItem(h: HStore, i: nat)
      requires Valid() && WellFormed(h) && i < Count(h) && HasRoom(1, ItemSize(h, i))
      modifies this, mem
      ensures Valid() && ps == old(ps) + [Pairs(h)[i]]
      ensures dent == old(dent) + 2 && dptr == old(dptr) + ItemSize(h, i)
    {
      hide PackStr, RawEnts, Pairs, WellFormed, EntryImage, CharImage, Entries, Strings, Parts;
      UnpackedPair(h, i);
      assert ItemSize(h, i) == StartOf(h, i + 1) - StartOf(h, i);
      var at, klen := StartOf(h, i), h.ents[2 * i].endpos - StartOf(h, i);
      var vlen := h.ents[2 * i + 1].endpos - h.ents[2 * i].endpos;
      PutChars(h.str[at..at + klen + vlen]);
      PutEntry(HEntry(false, false, dptr - vlen));
      PutEntry(HEntry(false, h.ents[2 * i + 1].isnull, dptr));
      ps := ps + [Pairs(h)[i]];
      PairNull(h, i);
      assert h.str[at..at + klen + vlen] == Pairs(h)[i].key + ValBytes(Pairs(h)[i]);
      Pushed(old(ps), Pairs(h)[i], old(Entries()), old(Strings()), Entries(), Strings());
    }

    /** HS_ADDITEM */
    method AddItem(p: Pair)
      requires Valid() && HasRoom(1, |p.key| + |ValBytes(p)|)
      modifies this, mem
      ensures Valid() && ps == old(ps) + [p]
      ensures dent == old(dent) + 2 && dptr == old(dptr) + |p.key| + |ValBytes(p)|
    {
      hide PackStr, RawEnts, EntryImage, CharImage, Entries, Strings, Parts;
      PutChars(p.key);
      PutEntry(HEntry(false, false, dptr));
      if p.val.None? {
        PutEntry(HEntry(false, true, dptr));
        assert p.key + ValBytes(p) == p.key;
      } else {
        PutChars(p.val.value);
        PutEntry(HEntry(false, false, dptr));
        CharsOfTwo(old(Strings()), p.key, p.val.value);
      }
      ps := ps + [p];
      Pushed(old(ps), p, old(Entries()), old(Strings()), Entries(), Strings());
    }

    /** ARRPTR(hs)[0].entry |= HENTRY_ISFIRST */
    method MarkEntry()
      requires Valid() && dent > 0
      modifies mem
      ensures Entries() == EntryImage(MarkFirst(RawEnts(ps))) && Strings() == old(Strings())
    {
      hide PackStr, RawEnts, EntryImage, CharImage;
      ghost var es := RawEnts(ps);
      ImageHead(es);
      MarkedImage(es);
      assert mem[0] == mem[..4 * dent][0] == Part(es[0], 0);
      var e := mem[0].entry.(isfirst := true);
      mem[0], mem[1], mem[2], mem[3] := Part(e, 0), Part(e, 1), Part(e, 2), Part(e, 3);
      assert mem[..4 * dent] == Parts(e) + old(mem[..4 * dent])[4..];
    }

    /** HS_FINALIZE: the first entry is marked, and the strings close up to the entries there are. */
    method Finalize() returns (h: HStore)
      requires Valid()
      modifies mem
      ensures h == Pack(ps)
    {
      hide PackStr, RawEnts, EntryImage, CharImage, Entries, Strings;
      var count := dent / 2;
      if count > 0 { MarkEntry(); } else { NoImage(ps); }
      CloseUp(count);
      ReadEntries(mem[..], MarkFirst(RawEnts(ps)));
      ReadChars(mem[..], 8 * count, PackStr(ps));
      h := HStore(EntriesIn(mem[..], dent), CharsIn(mem[..], 8 * count, dptr));
    }

    /** The memmove of HS_FINALIZE */
    method CloseUp(count: nat)
      requires InBounds() && dent == 2 * count
      modifies mem
      ensures mem[..4 * dent] == old(Entries()) && mem[8 * count..8 * count + dptr] == old(Strings())
    {
      if count != room {
        MoveDown(mem, 8 * count, 8 * room, dptr);
      }
    }
  }

  lemma {:induction false} ImageHead(es: seq<HEntry>)
    requires |es| > 0
    ensures EntryImage(es) == Parts(es[0]) + EntryImage(es[1..])
    decreases |es|
  {
    var n := |es| - 1;
    if n > 0 {
      ImageHead(es[..n]);
      assert es[..n][1..] == es[1..][..n - 1];
      assert EntryImage(es) == Parts(es[0]) + EntryImage(es[1..][..n - 1]) + Parts(es[n]);
    } else {
      assert es[..0] == [] && es[1..] == [];
      assert EntryImage(es) == [] + Parts(es[0]);
    }
  }

  lemma MarkedImage(es: seq<HEntry>)
    requires |es| > 0
    ensures EntryImage(MarkFirst(es)) == Parts(es[0].(isfirst := true)) + EntryImage(es[1..])
  {
    hide EntryImage;
    ImageHead(MarkFirst(es));
    assert MarkFirst(es)[1..] == es[1..];
  }

  lemma NoImage(ps: seq<Pair>)
    requires |ps| == 0
    ensures EntryImage(MarkFirst(RawEnts(ps))) == []
  {
  }

  lemma CharsOfTwo(m: seq<Unit>, a: bytes, b: bytes)
    ensures m + CharImage(a) + CharImage(b) == m + CharImage(a + b)
  {
  }

  /** One pair more in memory is the image of one pair more. */
  lemma Pushed(ps: seq<Pair>, p: Pair, e0: seq<Unit>, s0: seq<Unit>, e1: seq<Unit>, s1: seq<Unit>)
    requires e0 == EntryImage(RawEnts(ps)) && s0 == CharImage(PackStr(ps))
    requires var es := EntriesOf(p, |PackStr(ps)|); e1 == e0 + Parts(es[0]) + Parts(es[1])
    requires s1 == s0 + CharImage(p.key + ValBytes(p))
    ensures e1 == EntryImage(RawEnts(ps + [p])) && s1 == CharImage(PackStr(ps + [p]))
    ensures |PackStr(ps + [p])| == |PackStr(ps)| + |p.key| + |ValBytes(p)|
  {
    hide PackStr, RawEnts, EntryImage;
    Appended(ps, p);
    var es := EntriesOf(p, |PackStr(ps)|);
    PushEntry(RawEnts(ps), es[0]);
    PushEntry(RawEnts(ps) + [es[0]], es[1]);
    assert RawEnts(ps) + [es[0]] + [es[1]] == RawEnts(ps) + es;
    assert PackStr(ps) + p.key + ValBytes(p) == PackStr(ps) + (p.key + ValBytes(p));
  }

  lemma StrOfAppend(ps: seq<Pair>, p: Pair)
    ensures PackStr(ps + [p]) == PackStr(ps) + p.key + ValBytes(p)
  {
    assert (ps + [p])[..|ps|] == ps;
  }

  lemma EntsOfAppend(ps: seq<Pair>, p: Pair)
    ensures RawEnts(ps + [p]) == RawEnts(ps) + EntriesOf(p, |PackStr(ps)|)
  {
    hide PackStr, EntriesOf;
    assert (ps + [p])[..|ps|] == ps;
  }

  lemma Appended(ps: seq<Pair>, p: Pair)
    ensures PackStr(ps + [p]) == PackStr(ps) + p.key + ValBytes(p)
    ensures RawEnts(ps + [p]) == RawEnts(ps) + EntriesOf(p, |PackStr(ps)|)
  {
    hide PackStr, RawEnts;
    StrOfAppend(ps, p);
    EntsOfAppend(ps, p);
  }

  lemma PairNull(h: HStore, i: nat)
    requires WellFormed(h) && i < Count(h)
    ensures Pairs(h)[i].val.None? == h.ents[2 * i + 1].isnull
  {
    assert Pairs(h)[i] == PairAt(h, i);
  }

  /** A finished build of sorted pairs is canonical and has their content. */
  lemma Built(ps: seq<Pair>)
    requires Sorted(ps)
    ensures Canonical(Pack(ps)) && Content(Pack(ps)) == MapOf(ps)
  {
    PackRoundTrip(ps);
  }

  // ----- sorted appends -----

  /** Every key so far is below `key`. */
  predicate AllBelow(ps: seq<Pair>, key: bytes) { forall i | 0 <= i < |ps| :: KeyLess(ps[i].key, key) }

  lemma AppendSorted(ps: seq<Pair>, p: Pair)
    requires Sorted(ps) && AllBelow(ps, p.key)
    ensures Sorted(ps + [p]) && MapOf(ps + [p]) == MapOf(ps)[p.key := p.val] && p.key !in MapOf(ps)
    ensures forall key :: KeyLess(p.key, key) ==> AllBelow(ps + [p], key)
  {
    assert (ps + [p])[..|ps|] == ps;
    MapHas(ps);
    if p.key in MapOf(ps) {
      KeyIrreflexive(p.key);
    }
    forall key | KeyLess(p.key, key) ensures AllBelow(ps + [p], key) {
      forall i | 0 <= i < |ps + [p]| ensures KeyLess((ps + [p])[i].key, key) {
        if i < |ps| { KeyTrans(ps[i].key, p.key, key); }
      }
    }
  }

  lemma MapPrefix(p: seq<Pair>, i: nat)
    requires i < |p|
    ensures MapOf(p[..i + 1]) == MapOf(p[..i])[p[i].key := p[i].val]
  {
    assert p[..i + 1][..i] == p[..i];
  }
}
