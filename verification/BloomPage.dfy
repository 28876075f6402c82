/** Bloom index pages: appending a tuple, compaction by VACUUM, and the build that fills pages in turn. */
module BloomPage {

  /** A heap position and the signature of its row. */
  datatype Tuple = Tuple(heapPtr: int, sign: seq<bv16>)

  const BLCKSZ := 8192
  const PAGE_HEADER := 24  // MAXALIGN(SizeOfPageHeaderData)
  const PAGE_OPAQUE := 8   // MAXALIGN(sizeof(BloomPageOpaqueData))
  const MAX_TUPLE_SIZE := 518

  /** sizeOfBloomTuple: the header and at most 256 words. */
  type TupleSize = n: int | 8 <= n <= MAX_TUPLE_SIZE witness 8

  /** BloomPageGetFreeSpace of a page with n tuples */
  function FreeSpace(size: TupleSize, n: nat): int { BLCKSZ - PAGE_HEADER - n * size - PAGE_OPAQUE }

  predicate Room(size: TupleSize, n: nat) { FreeSpace(size, n) >= size }

  /** The tuples that `dead` does not name, in order. */
  function Survivors(ts: seq<Tuple>, dead: int -> bool): (ss: seq<Tuple>)
    ensures |ss| <= |ts|
  {
    if |ts| == 0 then [] else
    var rest, t := Survivors(ts[..|ts| - 1], dead), ts[|ts| - 1];
    if dead(t.heapPtr) then rest else rest + [t]
  }

  lemma SurvivorsStep(ts: seq<Tuple>, i: nat, dead: int -> bool)
    requires i < |ts|
    ensures Survivors(ts[..i + 1], dead) ==
            if dead(ts[i].heapPtr) then Survivors(ts[..i], dead) else Survivors(ts[..i], dead) + [ts[i]]
  {
    assert ts[..i + 1][..i] == ts[..i];
  }

  /** A tuple survives exactly if it was there and is not dead, as often as it was there. */
  lemma {:induction false} SurvivorsAre(ts: seq<Tuple>, dead: int -> bool, t: Tuple)
    ensures multiset(Survivors(ts, dead))[t] == if dead(t.heapPtr) then 0 else multiset(ts)[t]
    ensures t in Survivors(ts, dead) <==> t in ts && !dead(t.heapPtr)
    decreases |ts|
  {
    if |ts| > 0 {
      SurvivorsAre(ts[..|ts| - 1], dead, t);
      assert ts == ts[..|ts| - 1] + [ts[|ts| - 1]];
    }
    assert t in Survivors(ts, dead) <==> t in multiset(Survivors(ts, dead));
    assert t in ts <==> t in multiset(ts);
  }

  /** Nothing dead: nothing removed. */
  lemma {:induction false} AllSurvive(ts: seq<Tuple>, dead: int -> bool)
    ensures |Survivors(ts, dead)| == |ts| ==> Survivors(ts, dead) == ts
    decreases |ts|
  {
    if |ts| > 0 {
      AllSurvive(ts[..|ts| - 1], dead);
      assert ts == ts[..|ts| - 1] + [ts[|ts| - 1]];
    }
  }

  /** An initialised page: its opaque data, its pd_lower and the slots between header and opaque data. */
  class Page {
    const size: TupleSize
    const slots: array<Tuple>
    var maxoff: nat
    var deleted: bool
    var lower: nat

    /** BloomInitPage on a fresh buffer */
    constructor (size: TupleSize)
      ensures Valid() && fresh(slots) && this.size == size && Tuples() == [] && !deleted
    {
      this.size := size;
      slots := new Tuple[(BLCKSZ - PAGE_HEADER - PAGE_OPAQUE) / size](_ => Tuple(0, []));
      maxoff, deleted, lower := 0, false, PAGE_HEADER;
    }

    /** The tuples fit below the opaque data, and pd_lower is where they end. */
    ghost predicate Valid()
      reads this
    {
      && slots.Length * size <= BLCKSZ - PAGE_HEADER - PAGE_OPAQUE < (slots.Length + 1) * size
      && maxoff <= slots.Length && lower == PAGE_HEADER + maxoff * size
    }

    ghost function Tuples(): (ts: seq<Tuple>)
      requires Valid()
      reads this, slots
      ensures |ts| == maxoff
    {
      slots[..maxoff]
    }

    /** BloomPageAddItem: appends while there is room for one more, and never past the page. */
    method AddItem(tuple: Tuple) returns (added: bool)
      requires Valid() && !deleted
      modifies this`maxoff, this`lower, slots
      ensures Valid() && added == Room(size, old(maxoff))
      ensures Tuples() == if added then old(Tuples()) + [tuple] else old(Tuples())
    {
      if FreeSpace(size, maxoff) < size { return false; }
      SlotLeft(size, slots.Length, maxoff);
      slots[maxoff] := tuple;
      maxoff := maxoff + 1;
      lower := PAGE_HEADER + maxoff * size;
      return true;
    }

    /** The page's part of blbulkdelete: what `dead` names is taken out in place, the rest keeps its
        order, a page emptied by this is marked deleted, and `more` says if it has room. */
    method Compact(dead: int -> bool) returns (removed: nat, more: bool)
      requires Valid() && !deleted
      modifies this, slots
      ensures Valid() && Tuples() == Survivors(old(Tuples()), dead)
      ensures removed == old(maxoff) - maxoff && deleted == (removed > 0 && maxoff == 0)
      ensures more == (maxoff != 0 && Room(size, maxoff))
    {
      hide Survivors;
      ghost var ts := Tuples();
      var itup, itupPtr, itupEnd := 0, 0, maxoff;
      removed := 0;
      NoSurvivors(ts, dead);
      while itup < itupEnd
        invariant itupPtr <= itup <= itupEnd == |ts| <= slots.Length
        && removed == itup - itupPtr && maxoff == |ts| - removed
        invariant slots[..itupPtr] == Survivors(ts[..itup], dead) && slots[itup..itupEnd] == ts[itup..]
        invariant lower == PAGE_HEADER + |ts| * size && !deleted
      {
        SurvivorsStep(ts, itup, dead);
        assert slots[itup] == slots[itup..itupEnd][0] == ts[itup];
        if dead(slots[itup].heapPtr) {
          maxoff := maxoff - 1;
          removed := removed + 1;
        } else {
          ghost var front := slots[..itupPtr];
          if itupPtr != itup {
            slots[itupPtr] := slots[itup];
          }
          itupPtr := itupPtr + 1;
          assert slots[..itupPtr] == front + [ts[itup]];
        }
        assert slots[itup + 1..itupEnd] == ts[itup + 1..];
        itup := itup + 1;
      }
      assert ts[..itup] == ts;
      more := maxoff != 0 && FreeSpace(size, maxoff) >= size;
      if itupPtr != itup {
        if maxoff == 0 {
          deleted := true;
        }
        lower := PAGE_HEADER + itupPtr * size;
      }
    }
  }

  lemma NoSurvivors(ts: seq<Tuple>, dead: int -> bool)
    ensures Survivors(ts[..0], dead) == []
  {
  }

  /** Room by the byte count is a free slot. */
  lemma SlotLeft(size: TupleSize, slots: nat, n: nat)
    requires slots * size <= BLCKSZ - PAGE_HEADER - PAGE_OPAQUE < (slots + 1) * size
    ensures Room(size, n) <==> n < slots
  {
    if n < slots {
      assert (n + 1) * size <= slots * size;
    } else {
      assert (n + 1) * size >= (slots + 1) * size;
    }
  }

  /** An empty page has room for a tuple of any size. */
  lemma EmptyPageHasRoom(size: TupleSize)
    ensures Room(size, 0)
  {
  }

  // ----- build -----

  function Flatten(pages: seq<seq<Tuple>>): seq<Tuple> {
    if |pages| == 0 then [] else Flatten(pages[..|pages| - 1]) + pages[|pages| - 1]
  }

  /** BloomBuildState: the pages written so far, the cached page and the counts. */
  class Build {
    const size: TupleSize
    var data: Page
    var count: nat
    var indtuples: nat
    var flushed: seq<seq<Tuple>>

    constructor (size: TupleSize)
      ensures Valid() && this.size == size && Indexed() == [] && indtuples == 0
      ensures fresh(data) && fresh(data.slots)
    {
      this.size := size;
      data := new Page(size);
      count, indtuples, flushed := 0, 0, [];
    }

    /** Only full pages have been written. */
    ghost predicate Valid()
      reads this, data
    {
      && data.Valid() && !data.deleted && data.size == size && count == data.maxoff
      && forall i | 0 <= i < |flushed| :: !Room(size, |flushed[i]|)
    }

    ghost function Indexed(): seq<Tuple>
      requires Valid()
      reads this, data, data.slots
    {
      Flatten(flushed) + data.Tuples()
    }

    /** flushCachedPage */
    method FlushCachedPage()
      requires data.Valid()
      modifies this`flushed
      ensures flushed == old(flushed) + [data.Tuples()]
    {
      flushed := flushed + [data.slots[..data.maxoff]];
    }

    /** bloomBuildCallback */
    method Callback(itup: Tuple)
      requires Valid()
      modifies this, data, data.slots
      ensures Valid() && Indexed() == old(Indexed()) + [itup] && indtuples == old(indtuples) + 1 && count > 0
      ensures data == old(data) || (fresh(data) && fresh(data.slots))
      ensures data == old(data) ==> data.slots == old(data.slots)
    {
      hide Flatten;
      ghost var f, ts := flushed, data.Tuples();
      var added := data.AddItem(itup);
      if added {
        count := count + 1;
        assert f + [] == f;
        Gather(Flatten(f), ts, itup);
      } else {
        FlushCachedPage();
        FlattenPush(f, ts);
        data := new Page(size);
        count := 0;
        EmptyPageHasRoom(size);
        added := data.AddItem(itup);
        assert added;
        count := count + 1;
      }
      indtuples := indtuples + 1;
    }
  }

  lemma Gather<T>(a: seq<T>, b: seq<T>, x: T)
    ensures a + (b + [x]) == a + b + [x]
  {
  }

  lemma FlattenPush(pages: seq<seq<Tuple>>, p: seq<Tuple>)
    ensures Flatten(pages + [p]) == Flatten(pages) + p
  {
    assert (pages + [p])[..|pages|] == pages;
  }

  /** blbuild: the data pages hold the tuples of the heap scan in order, none is empty, and only the
      last may have room. */
  method BlBuild(size: TupleSize, heap: seq<Tuple>) returns (pages: seq<seq<Tuple>>, indexTuples: nat)
    ensures Flatten(pages) == heap && indexTuples == |heap|
    ensures forall i | 0 <= i < |pages| :: |pages[i]| > 0 && (i < |pages| - 1 ==> !Room(size, |pages[i]|))
  {
    hide Flatten;
    var b := new Build(size);
    for i := 0 to |heap|
      invariant fresh(b) && fresh(b.data) && fresh(b.data.slots) && b.Valid() && b.size == size
      invariant b.Indexed() == heap[..i] && b.indtuples == i
    {
      b.Callback(heap[i]);
      assert heap[..i + 1] == heap[..i] + [heap[i]];
    }
    assert heap[..|heap|] == heap;
    ghost var f, ts := b.flushed, b.data.Tuples();
    if b.count > 0 {
      b.FlushCachedPage();
      FlattenPush(f, ts);
    } else {
      assert Flatten(f) + [] == Flatten(f);
    }
    EmptyPageHasRoom(size);
    return b.flushed, b.indtuples;
  }
}
