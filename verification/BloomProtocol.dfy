/** Inserters, VACUUM and page recycling on one bloom index, as interleaved lock-protected steps. */
module BloomProtocol {
  import opened BloomPage
  import opened Common

  const META_BLOCKS := 2004 // BloomMetaBlockN

  /** A block: the metapage, one never initialised, or a data page. */
  datatype Block = Meta | New | Data(deleted: bool, tuples: seq<Tuple>)

  /** The metapage's list of blocks that may have room. */
  datatype NotFull = NotFull(nStart: nat, nEnd: nat, blocks: seq<nat>)

  /** What one process is doing between two of its steps. */
  datatype Proc =
    | Idle
    | Arrived(t: Tuple)                      // blinsert, before it looks at the metapage
    | TryFirst(t: Tuple, blk: nat)           // has let go of the metapage, will try the first listed block
    | WantMeta(t: Tuple, tried: Option<nat>) // waits for the metapage's exclusive lock
    | Holding(t: Tuple, cursor: nat)         // holds it and goes through the list
    | NoFree(t: Tuple)                       // holds it and has found the free space map empty
    | Extended(t: Tuple, blk: nat)           // holds it and has extended the file, but not locked the block
    | Scanning(dead: set<int>, blk: nat, npages: nat, found: seq<nat>, start: nat) // blbulkdelete
    | Cleaning(blk: nat, npages: nat)        // blvacuumcleanup

  /** What happened to the entries of a block. */
  datatype Event = Inserted(blk: nat, t: Tuple) | Removed(blk: nat, ts: multiset<Tuple>)

  /** The index, its free space map, the owner of the metapage's exclusive lock, the processes, and as
      history the entries it began with and what happened since. */
  datatype State = State(
    size: TupleSize, blocks: seq<Block>, meta: NotFull, free: set<nat>, owner: Option<nat>, procs: map<nat, Proc>,
    base: seq<multiset<Tuple>>, log: seq<Event>)

  datatype Action =
    | StartInsert(t: Tuple) | ReadMeta | FirstPage | LockMeta | ListedPage
    | PopFree(blk: nat, locked: bool) | FindNoFree | Extend | InitPage
    | StartVacuum(dead: set<int>) | VacuumPage | WriteList | StartCleanup | CleanupPage | EndCleanup

  function ProcOf(s: State, p: nat): Proc { if p in s.procs then s.procs[p] else Idle }

  function BlockAt(s: State, b: nat): Block { if b < |s.blocks| then s.blocks[b] else New }

  function Reusable(b: Block): bool { b.New? || (b.Data? && b.deleted) }

  /** The block after blinsert's attempt: initialised first if new or deleted; none if it is full. */
  function Added(size: TupleSize, b: Block, t: Tuple): Option<Block> {
    var ts := if b.Data? && !b.deleted then b.tuples else [];
    if b.Meta? || !Room(size, |ts|) then None else Some(Data(false, ts + [t]))
  }

  /** The block after blbulkdelete's visit. */
  function Vacuumed(b: Block, dead: set<int>): Block {
    if !b.Data? || b.deleted then b else
    var kept := Survivors(b.tuples, x => x in dead);
    if |kept| == |b.tuples| then b else Data(|kept| == 0, kept)
  }

  function SetProc(s: State, p: nat, q: Proc): State { s.(procs := s.procs[p := q]) }

  /** Puts a block with a new entry in place. */
  function Insert(s: State, blk: nat, b: Block, t: Tuple): State {
    s.(blocks := if blk < |s.blocks| then s.blocks[blk := b] else s.blocks, log := s.log + [Inserted(blk, t)])
  }

  /** The list with just one block. */
  function Only(m: NotFull, blk: nat): NotFull {
    NotFull(0, 1, if |m.blocks| > 0 then m.blocks[0 := blk] else m.blocks)
  }

  /** One step of process p, if it can take it. */
  function Next(s: State, p: nat, a: Action): Option<State> {
    match (ProcOf(s, p), a)
    case (Idle, StartInsert(t)) => Some(SetProc(s, p, Arrived(t)))
    case (Arrived(t), ReadMeta) => if s.owner.Some? then None else Some(SetProc(s, p, AfterReadMeta(s.meta, t)))
    case (TryFirst(t, blk), FirstPage) =>
      var b := Added(s.size, BlockAt(s, blk), t);
      Some(if b.None? then SetProc(s, p, WantMeta(t, Some(blk))) else SetProc(Insert(s, blk, b.value, t), p, Idle))
    case (WantMeta(t, tried), LockMeta) =>
      if s.owner.Some? then None else Some(SetProc(s.(owner := Some(p)), p, Holding(t, FirstCursor(s.meta, tried))))
    case (Holding(t, c), ListedPage) =>
      if c >= s.meta.nEnd || c >= |s.meta.blocks| then None else
      var blk := s.meta.blocks[c];
      var b := Added(s.size, BlockAt(s, blk), t);
      Some(if b.None? then SetProc(s, p, Holding(t, c + 1))
           else SetProc(Insert(s, blk, b.value, t).(meta := s.meta.(nStart := c), owner := None), p, Idle))
    case (Holding(t, c), PopFree(blk, locked)) =>
      if c < s.meta.nEnd || blk !in s.free then None else
      var s1 := s.(free := s.free - {blk});
      Some(if locked || !Reusable(BlockAt(s, blk)) then s1 else Allocated(s1, p, blk, t))
    case (Holding(t, c), FindNoFree) => if c < s.meta.nEnd || s.free != {} then None else Some(SetProc(s, p, NoFree(t)))
    case (NoFree(t), Extend) => Some(SetProc(s.(blocks := s.blocks + [New]), p, Extended(t, |s.blocks|)))
    case (Extended(t, blk), InitPage) => Some(Allocated(s, p, blk, t))
    case (Idle, StartVacuum(dead)) => Some(SetProc(s, p, Scanning(dead, 1, |s.blocks|, [], |s.log|)))
    case (Scanning(dead, blk, npages, found, start), VacuumPage) =>
      if blk >= npages then None else Some(AfterVacuumPage(s, p))
    case (Scanning(dead, blk, npages, found, start), WriteList) =>
      if blk < npages || s.owner.Some? then None else
      Some(SetProc(s.(meta := Listed(s.meta, found)), p, Idle))
    case (Idle, StartCleanup) => Some(SetProc(s, p, Cleaning(1, |s.blocks|)))
    case (Cleaning(blk, npages), CleanupPage) =>
      if blk >= npages then None else
      var free := if Reusable(BlockAt(s, blk)) then s.free + {blk} else s.free;
      Some(SetProc(s.(free := free), p, Cleaning(blk + 1, npages)))
    case (Cleaning(blk, npages), EndCleanup) => if blk < npages then None else Some(SetProc(s, p, Idle))
    case _ => None
  }

  /** Under the shared lock: the first listed block, if there is one. */
  function AfterReadMeta(m: NotFull, t: Tuple): Proc {
    if m.nEnd > m.nStart && m.nStart < |m.blocks| then TryFirst(t, m.blocks[m.nStart]) else WantMeta(t, None)
  }

  /** Where to go on in the list: past its first block if that is the one already tried. */
  function FirstCursor(m: NotFull, tried: Option<nat>): nat {
    if m.nStart < m.nEnd && m.nStart < |m.blocks| && tried == Some(m.blocks[m.nStart]) then m.nStart + 1 else m.nStart
  }

  /** A block from BloomNewBuffer is initialised whatever it held, gets the entry, becomes the whole
      list, and the metapage is let go. */
  function Allocated(s: State, p: nat, blk: nat, t: Tuple): State {
    SetProc(Insert(s, blk, Data(false, [t]), t).(meta := Only(s.meta, blk), owner := None), p, Idle)
  }

  /** The list blbulkdelete writes over the old one. */
  function Listed(m: NotFull, found: seq<nat>): NotFull {
    NotFull(0, |found|, if |found| <= |m.blocks| then found + m.blocks[|found|..] else found)
  }

  function AfterVacuumPage(s: State, p: nat): State
    requires ProcOf(s, p).Scanning?
  {
    var v := ProcOf(s, p);
    var b := BlockAt(s, v.blk);
    if b.Meta? || Reusable(b) then SetProc(s, p, Scanning(v.dead, v.blk + 1, v.npages, v.found, v.start)) else
    var b' := Vacuumed(b, v.dead);
    var more := |b'.tuples| != 0 && Room(s.size, |b'.tuples|) && |v.found| < META_BLOCKS;
    var s1 := s.(blocks := if v.blk < |s.blocks| then s.blocks[v.blk := b'] else s.blocks,
                 log := s.log + [Removed(v.blk, multiset(b.tuples) - multiset(b'.tuples))]);
    SetProc(s1, p, Scanning(v.dead, v.blk + 1, v.npages, if more then v.found + [v.blk] else v.found, v.start))
  }

  // ----- entries and their history -----

  function EntriesAt(s: State, b: nat): multiset<Tuple> {
    if BlockAt(s, b).Data? then multiset(BlockAt(s, b).tuples) else multiset{}
  }

  function BaseAt(s: State, b: nat): multiset<Tuple> { if b < |s.base| then s.base[b] else multiset{} }

  /** How often t was inserted into block b since event `start`. */
  function InsertedIn(log: seq<Event>, start: nat, b: nat, t: Tuple): nat {
    if |log| <= start then 0 else
    InsertedIn(log[..|log| - 1], start, b, t) + if log[|log| - 1] == Inserted(b, t) then 1 else 0
  }

  /** How often t was removed from block b. */
  function RemovedFrom(log: seq<Event>, b: nat, t: Tuple): nat {
    if |log| == 0 then 0 else
    var e := log[|log| - 1];
    RemovedFrom(log[..|log| - 1], b, t) + if e.Removed? && e.blk == b then e.ts[t] else 0
  }

  // ----- the invariant -----

  predicate BlockOk(size: TupleSize, b: Block) {
    b.Data? ==> (b.deleted ==> b.tuples == []) && (|b.tuples| > 0 ==> Room(size, |b.tuples| - 1))
  }

  /** Block 0 is the metapage and the only one; deleted blocks hold nothing; no block is overfull. */
  predicate BlocksOk(s: State) {
    && |s.blocks| > 0 && s.blocks[0].Meta?
    && forall b | 1 <= b < |s.blocks| :: !s.blocks[b].Meta? && BlockOk(s.size, s.blocks[b])
  }

  /** b is a data block that has been initialised. */
  predicate IsData(s: State, b: nat) { 1 <= b < |s.blocks| && s.blocks[b].Data? }

  predicate MetaOk(s: State) {
    && s.meta.nStart <= s.meta.nEnd <= META_BLOCKS == |s.meta.blocks|
    && (forall i | 0 <= i < s.meta.nEnd :: IsData(s, s.meta.blocks[i]))
    && forall b | b in s.free :: 1 <= b < |s.blocks|
  }

  /** An entry is in its block as often as it was there at first or put there since, less its removals. */
  ghost predicate Conserved(s: State) {
    forall b: nat, t: Tuple :: EntriesAt(s, b)[t] + RemovedFrom(s.log, b, t)
      == BaseAt(s, b)[t] + InsertedIn(s.log, 0, b, t)
  }

  /** In the blocks a VACUUM has passed, or that did not exist when it began, every entry it wants gone
      has been inserted since. */
  ghost predicate Swept(s: State, v: Proc)
    requires v.Scanning?
  {
    forall b: nat, t: Tuple | (b < v.blk || b >= v.npages) && t.heapPtr in v.dead ::
      EntriesAt(s, b)[t] <= InsertedIn(s.log, v.start, b, t)
  }

  /** The process has the metapage's exclusive lock. */
  predicate Owns(q: Proc) { q.Holding? || q.NoFree? || q.Extended? }

  ghost predicate ProcOk(s: State, p: nat, q: Proc) {
    match q
    case TryFirst(_, blk) => IsData(s, blk)
    case Holding(_, c) => s.owner == Some(p) && s.meta.nStart <= c <= s.meta.nEnd
    case NoFree(_) => s.owner == Some(p)
    case Extended(_, blk) => s.owner == Some(p) && 1 <= blk < |s.blocks| && s.blocks[blk].New?
    case Scanning(_, blk, npages, found, start) =>
      && 1 <= blk <= npages <= |s.blocks| && |found| <= META_BLOCKS && start <= |s.log|
      && (forall i | 0 <= i < |found| :: IsData(s, found[i])) && Swept(s, q)
    case Cleaning(blk, npages) => 1 <= blk <= npages <= |s.blocks|
    case _ => true
  }

  ghost predicate Inv(s: State) {
    && BlocksOk(s) && MetaOk(s) && Conserved(s)
    && (forall p: nat :: ProcOk(s, p, ProcOf(s, p)))
    && (s.owner.Some? ==> Owns(ProcOf(s, s.owner.value)))
  }

  // ----- what a step does to blocks and history -----

  lemma LogStep(log: seq<Event>, e: Event, start: nat, b: nat, t: Tuple)
    requires start <= |log|
    ensures InsertedIn(log + [e], start, b, t) == InsertedIn(log, start, b, t) + if e == Inserted(b, t) then 1 else 0
    ensures RemovedFrom(log + [e], b, t) == RemovedFrom(log, b, t) + if e.Removed? && e.blk == b then e.ts[t] else 0
  {
    assert (log + [e])[..|log|] == log;
  }

  /** The entries of every block after one event: one more for an insertion, fewer for a removal. */
  ghost predicate Accounts(s: State, s1: State, e: Event) {
    && s1.log == s.log + [e] && s1.base == s.base
    && forall b: nat, t: Tuple ::
         EntriesAt(s1, b)[t] + (if e.Removed? && e.blk == b then e.ts[t] else 0)
         == EntriesAt(s, b)[t] + if e == Inserted(b, t) then 1 else 0
  }

  lemma AccountsConserve(s: State, s1: State, e: Event)
    requires Conserved(s) && Accounts(s, s1, e)
    ensures Conserved(s1)
  {
    hide EntriesAt, BaseAt, InsertedIn, RemovedFrom;
    forall b: nat, t: Tuple
      ensures EntriesAt(s1, b)[t] + RemovedFrom(s1.log, b, t) == BaseAt(s1, b)[t] + InsertedIn(s1.log, 0, b, t)
    {
      LogStep(s.log, e, 0, b, t);
      SameBase(s, s1, b);
    }
  }

  lemma SameBase(s: State, s1: State, b: nat)
    requires s1.base == s.base
    ensures BaseAt(s1, b) == BaseAt(s, b)
  {
  }

  lemma AccountsSwept(s: State, s1: State, e: Event, v: Proc)
    requires Accounts(s, s1, e) && v.Scanning? && v.start <= |s.log| && Swept(s, v)
    ensures Swept(s1, v)
  {
    hide EntriesAt, InsertedIn, RemovedFrom;
    forall b: nat, t: Tuple | (b < v.blk || b >= v.npages) && t.heapPtr in v.dead
      ensures EntriesAt(s1, b)[t] <= InsertedIn(s1.log, v.start, b, t)
    {
      LogStep(s.log, e, v.start, b, t);
    }
  }

  /** Blocks only become data blocks, and the file only grows. */
  ghost predicate Grows(s: State, s1: State) {
    && |s.blocks| <= |s1.blocks| && |s.log| <= |s1.log| && s1.size == s.size && s1.base == s.base
    && (forall b: nat | IsData(s, b) :: IsData(s1, b))
    && (forall v: Proc | v.Scanning? && v.start <= |s.log| && Swept(s, v) :: Swept(s1, v))
  }

  lemma GrowsItself(s: State, s1: State)
    requires s1.blocks == s.blocks && s1.log == s.log && s1.size == s.size && s1.base == s.base
    ensures Grows(s, s1) && (Conserved(s) ==> Conserved(s1))
  {
    hide InsertedIn, RemovedFrom;
    assert forall b: nat :: EntriesAt(s1, b) == EntriesAt(s, b) && BaseAt(s1, b) == BaseAt(s, b);
  }

  lemma AccountsGrow(s: State, s1: State, e: Event)
    requires Accounts(s, s1, e) && |s.blocks| <= |s1.blocks| && s1.size == s.size
    requires forall b: nat | IsData(s, b) :: IsData(s1, b)
    ensures Grows(s, s1)
  {
    hide Accounts;
    assert s1.log == s.log + [e] && s1.base == s.base by { AccountsLog(s, s1, e); }
    forall v: Proc | v.Scanning? && v.start <= |s.log| && Swept(s, v) ensures Swept(s1, v) {
      AccountsSwept(s, s1, e, v);
    }
  }

  lemma AccountsLog(s: State, s1: State, e: Event)
    requires Accounts(s, s1, e)
    ensures s1.log == s.log + [e] && s1.base == s.base
  {
  }

  /** A process that takes no part keeps its condition. */
  lemma Bystander(s: State, s1: State, p: nat, q: Proc)
    requires ProcOk(s, p, q) && Grows(s, s1)
    requires Owns(q) ==> s1.owner == s.owner && s1.meta == s.meta
    requires q.Extended? ==> s1.blocks[q.blk].New?
    ensures ProcOk(s1, p, q)
  {
    hide Swept, IsData;
  }

  /** When one process p moves from `was` to q, and the others are bystanders. */
  lemma OthersKept(s: State, s1: State, p: nat, q: Proc)
    requires Inv(s) && Grows(s, s1) && s1.procs == s.procs[p := q]
    requires BlocksOk(s1) && MetaOk(s1) && Conserved(s1) && ProcOk(s1, p, q)
    requires s.owner == Some(p) || s.owner == None || (s1.owner == s.owner && s1.meta == s.meta)
    requires forall b: nat | b < |s.blocks| && s.blocks[b].New? && !s1.blocks[b].New? :: s.owner == Some(p)
    requires s1.owner == s.owner || (s.owner == Some(p) && s1.owner == None) || (s.owner == None && s1.owner == Some(p))
    requires s1.owner.Some? && s1.owner.value == p ==> Owns(q)
    ensures Inv(s1)
  {
    hide BlocksOk, MetaOk, Conserved, Grows, ProcOk;
    forall p': nat ensures ProcOk(s1, p', ProcOf(s1, p')) {
      if p' != p {
        assert ProcOk(s, p', ProcOf(s, p')) && ProcOf(s1, p') == ProcOf(s, p');
        OwnerOnly(s, p', ProcOf(s, p'));
        FileGrows(s, s1);
        Bystander(s, s1, p', ProcOf(s, p'));
      }
    }
    if s1.owner.Some? && s1.owner.value != p { assert ProcOf(s1, s1.owner.value) == ProcOf(s, s1.owner.value); }
  }

  lemma FileGrows(s: State, s1: State)
    requires Grows(s, s1)
    ensures |s.blocks| <= |s1.blocks|
  {
  }

  lemma OwnerOnly(s: State, p: nat, q: Proc)
    requires ProcOk(s, p, q)
    ensures Owns(q) ==> s.owner == Some(p)
    ensures q.Extended? ==> q.blk < |s.blocks| && s.blocks[q.blk].New?
  {
  }

  // ----- insertions -----

  /** The new content of a block: its entries, if it holds any, and one more. */
  predicate Extends(s: State, blk: nat, b: Block, t: Tuple) {
    && 1 <= blk < |s.blocks| && !s.blocks[blk].Meta? && b.Data? && !b.deleted
    && var ts := if Reusable(s.blocks[blk]) then [] else s.blocks[blk].tuples;
       b.tuples == ts + [t] && Room(s.size, |ts|)
  }

  lemma InsertBlocks(s: State, blk: nat, b: Block, t: Tuple)
    requires BlocksOk(s) && Extends(s, blk, b, t)
    ensures var s1 := Insert(s, blk, b, t);
            && BlocksOk(s1) && Accounts(s, s1, Inserted(blk, t)) && Grows(s, s1)
            && IsData(s1, blk) && (forall c: nat | c < |s.blocks| && c != blk :: s1.blocks[c] == s.blocks[c])
  {
    hide InsertedIn, RemovedFrom, Swept, EntriesAt;
    var s1 := Insert(s, blk, b, t);
    forall c: nat, u: Tuple ensures EntriesAt(s1, c)[u] == EntriesAt(s, c)[u] + if c == blk && u == t then 1 else 0 {
      InsertAt(s, blk, b, t, c, u);
    }
    AccountsGrow(s, s1, Inserted(blk, t));
  }

  lemma InsertAt(s: State, blk: nat, b: Block, t: Tuple, c: nat, u: Tuple)
    requires BlocksOk(s) && Extends(s, blk, b, t)
    ensures EntriesAt(Insert(s, blk, b, t), c)[u] == EntriesAt(s, c)[u] + if c == blk && u == t then 1 else 0
  {
    var s1 := Insert(s, blk, b, t);
    assert BlockOk(s.size, s.blocks[blk]);
    if c != blk { assert BlockAt(s1, c) == BlockAt(s, c); }
  }

  lemma AddedExtends(s: State, blk: nat, t: Tuple)
    requires BlocksOk(s) && 1 <= blk < |s.blocks|
    ensures var b := Added(s.size, BlockAt(s, blk), t); b.Some? ==> Extends(s, blk, b.value, t)
  {
    assert BlockOk(s.size, s.blocks[blk]);
  }

  lemma MetaKept(s: State, s1: State)
    requires MetaOk(s) && Grows(s, s1) && s1.free <= s.free
    requires s1.meta.blocks == s.meta.blocks && s1.meta.nEnd == s.meta.nEnd
    requires s1.meta == s.meta || s1.meta.nStart <= s.meta.nEnd
    ensures MetaOk(s1)
  {
    hide IsData;
  }

  /** blinsert's attempts on listed blocks: the first one, and those tried under the exclusive lock. */
  lemma InsertListed(s: State, p: nat, blk: nat, b: Block, t: Tuple, m: NotFull, owner: Option<nat>)
    requires Inv(s) && IsData(s, blk) && Extends(s, blk, b, t)
    requires m.blocks == s.meta.blocks && m.nEnd == s.meta.nEnd && m.nStart <= m.nEnd
    requires if s.owner == Some(p) then owner == None else owner == s.owner && m == s.meta
    ensures Inv(SetProc(Insert(s, blk, b, t).(meta := m, owner := owner), p, Idle))
  {
    hide Conserved, Accounts, Grows, InsertedIn, RemovedFrom;
    var s0 := Insert(s, blk, b, t);
    var s1 := SetProc(s0.(meta := m, owner := owner), p, Idle);
    InsertBlocks(s, blk, b, t);
    AccountsConserve(s, s0, Inserted(blk, t));
    Relabel(s, s0, s1);
    MetaKept(s, s1);
    OthersKept(s, s1, p, Idle);
  }

  /** Conservation and growth do not depend on the metapage, the free space map, locks and processes. */
  lemma Relabel(s: State, s0: State, s1: State)
    requires Grows(s, s0) && Conserved(s0) && s1.blocks == s0.blocks && s1.log == s0.log
             && s1.base == s0.base && s1.size == s0.size
    ensures Grows(s, s1) && Conserved(s1)
  {
    hide InsertedIn, RemovedFrom, IsData;
    GrowsItself(s0, s1);
    forall b: nat | IsData(s, b) ensures IsData(s1, b) { assert IsData(s0, b); SameData(s0, s1, b); }
  }

  lemma SameData(s: State, s1: State, b: nat)
    requires s1.blocks == s.blocks && IsData(s, b)
    ensures IsData(s1, b)
  {
  }

  /** A block from BloomNewBuffer: re-initialising it drops nothing. */
  lemma AllocatedInv(s: State, p: nat, blk: nat, t: Tuple)
    requires Inv(s) && s.owner == Some(p) && 1 <= blk < |s.blocks| && Reusable(s.blocks[blk])
    ensures Inv(Allocated(s, p, blk, t))
  {
    hide Conserved, Accounts, Grows, InsertedIn, RemovedFrom, ProcOk;
    var s0, s1 := Insert(s, blk, Data(false, [t]), t), Allocated(s, p, blk, t);
    EmptyPageHasRoom(s.size);
    InsertBlocks(s, blk, Data(false, [t]), t);
    AccountsConserve(s, s0, Inserted(blk, t));
    Relabel(s, s0, s1);
    OnlyOk(s, s0, s1, blk);
    FreeOk(s1, p, Idle);
    OthersKept(s, s1, p, Idle);
  }

  lemma FreeOk(s: State, p: nat, q: Proc)
    requires q.Idle? || q.Arrived? || q.WantMeta?
    ensures ProcOk(s, p, q)
  {
  }

  lemma OnlyOk(s: State, s0: State, s1: State, blk: nat)
    requires MetaOk(s) && IsData(s0, blk) && s1.blocks == s0.blocks && s1.meta == Only(s.meta, blk) && s1.free == s.free
    requires |s.blocks| <= |s0.blocks|
    ensures MetaOk(s1)
  {
  }

  // ----- VACUUM -----

  lemma VacuumCounts(b: Block, dead: set<int>, t: Tuple)
    requires b.Data? && !b.deleted
    ensures var b' := Vacuumed(b, dead);
            && b'.Data? && multiset(b'.tuples)[t] == (if t.heapPtr in dead then 0 else multiset(b.tuples)[t])
            && multiset(b'.tuples) <= multiset(b.tuples) && |b'.tuples| <= |b.tuples|
            && (b'.deleted ==> b'.tuples == [])
  {
    var kept := Survivors(b.tuples, x => x in dead);
    AllSurvive(b.tuples, x => x in dead);
    forall u: Tuple ensures multiset(kept)[u] == if u.heapPtr in dead then 0 else multiset(b.tuples)[u] {
      SurvivorsAre(b.tuples, x => x in dead, u);
    }
  }

  /** The state with block blk replaced by what blbulkdelete leaves of it. */
  function Swap(s: State, blk: nat, b: Block): State
    requires blk < |s.blocks|
  {
    var was := if s.blocks[blk].Data? then multiset(s.blocks[blk].tuples) else multiset{};
    var now := if b.Data? then multiset(b.tuples) else multiset{};
    s.(blocks := s.blocks[blk := b], log := s.log + [Removed(blk, was - now)])
  }

  /** A visited block: history accounts for what was removed, and nothing dead is left. */
  lemma VacuumBlocks(s: State, blk: nat, dead: set<int>)
    requires BlocksOk(s) && IsData(s, blk) && !s.blocks[blk].deleted
    ensures var s1 := Swap(s, blk, Vacuumed(s.blocks[blk], dead));
            && BlocksOk(s1) && Accounts(s, s1, s1.log[|s.log|]) && Grows(s, s1)
            && (forall t: Tuple | t.heapPtr in dead :: EntriesAt(s1, blk)[t] == 0)
  {
    hide InsertedIn, RemovedFrom, Swept, Vacuumed, BlockOk;
    var b, b' := s.blocks[blk], Vacuumed(s.blocks[blk], dead);
    var s1 := Swap(s, blk, b');
    VacuumedOk(s.size, b, dead);
    VacuumAccounts(s, blk, dead);
    AccountsGrow(s, s1, s1.log[|s.log|]);
  }

  lemma VacuumAccounts(s: State, blk: nat, dead: set<int>)
    requires IsData(s, blk) && !s.blocks[blk].deleted
    ensures var s1 := Swap(s, blk, Vacuumed(s.blocks[blk], dead));
            && Accounts(s, s1, s1.log[|s.log|])
            && (forall t: Tuple | t.heapPtr in dead :: EntriesAt(s1, blk)[t] == 0)
  {
    hide Vacuumed, EntriesAt;
    var s1 := Swap(s, blk, Vacuumed(s.blocks[blk], dead));
    forall c: nat, u: Tuple
      ensures EntriesAt(s1, c)[u] + (if c == blk then s1.log[|s.log|].ts[u] else 0) == EntriesAt(s, c)[u]
      ensures c == blk && u.heapPtr in dead ==> EntriesAt(s1, c)[u] == 0
    {
      VacuumAt(s, blk, dead, c, u);
    }
  }

  lemma VacuumAt(s: State, blk: nat, dead: set<int>, c: nat, u: Tuple)
    requires IsData(s, blk) && !s.blocks[blk].deleted
    ensures var s1 := Swap(s, blk, Vacuumed(s.blocks[blk], dead));
            && EntriesAt(s1, c)[u] + (if c == blk then s1.log[|s.log|].ts[u] else 0) == EntriesAt(s, c)[u]
            && (c == blk && u.heapPtr in dead ==> EntriesAt(s1, c)[u] == 0)
  {
    hide Vacuumed;
    var b, b' := s.blocks[blk], Vacuumed(s.blocks[blk], dead);
    var s1 := Swap(s, blk, b');
    VacuumCounts(b, dead, u);
    if c != blk {
      assert BlockAt(s1, c) == BlockAt(s, c);
    } else {
      LessSome(multiset(b.tuples), multiset(b'.tuples), u);
    }
  }

  lemma LessSome<T>(m: multiset<T>, k: multiset<T>, x: T)
    requires k <= m
    ensures (m - k)[x] + k[x] == m[x]
  {
  }

  lemma VacuumedOk(size: TupleSize, b: Block, dead: set<int>)
    requires BlockOk(size, b) && b.Data? && !b.deleted
    ensures var b' := Vacuumed(b, dead); b'.Data? && BlockOk(size, b') && |b'.tuples| <= |b.tuples|
  {
    hide Vacuumed, Room;
    VacuumCounts(b, dead, Tuple(0, []));
    var b' := Vacuumed(b, dead);
    if |b'.tuples| > 0 { RoomForFewer(size, |b'.tuples| - 1, |b.tuples| - 1); }
  }

  lemma RoomForFewer(size: TupleSize, m: nat, n: nat)
    requires m <= n && Room(size, n)
    ensures Room(size, m)
  {
    assert m * size <= n * size;
  }

  /** The pass has swept one block more. */
  lemma SweptNext(s: State, s1: State, v: Proc, v': Proc)
    requires v.Scanning? && v'.Scanning? && Grows(s, s1) && v.start <= |s.log| && Swept(s, v)
    requires v'.dead == v.dead && v'.blk == v.blk + 1 && v'.npages == v.npages && v'.start == v.start
    requires forall t: Tuple | t.heapPtr in v.dead :: EntriesAt(s1, v.blk)[t] == 0
    ensures Swept(s1, v')
  {
    hide EntriesAt, InsertedIn, RemovedFrom;
    assert Swept(s1, v);
  }

  lemma VacuumPageInv(s: State, p: nat)
    requires Inv(s) && ProcOf(s, p).Scanning? && ProcOf(s, p).blk < ProcOf(s, p).npages
    ensures Inv(AfterVacuumPage(s, p))
  {
    hide Conserved, Accounts, Swept, InsertedIn, RemovedFrom, Vacuumed, MetaOk;
    var v, s1 := ProcOf(s, p), AfterVacuumPage(s, p);
    assert ProcOk(s, p, v);
    var b := s.blocks[v.blk];
    if Reusable(b) {
      assert b.Data? ==> BlockOk(s.size, b);
      GrowsItself(s, s1);
    } else {
      var s0 := Swap(s, v.blk, Vacuumed(b, v.dead));
      VacuumBlocks(s, v.blk, v.dead);
      VacuumedIsData(b, v.dead);
      AccountsConserve(s, s0, s0.log[|s.log|]);
      Relabel(s, s0, s1);
      assert forall t: Tuple :: EntriesAt(s1, v.blk)[t] == EntriesAt(s0, v.blk)[t];
    }
    SweptNext(s, s1, v, ProcOf(s1, p));
    MetaKept(s, s1);
    VacuumProcOk(s, s1, p);
    OthersKept(s, s1, p, ProcOf(s1, p));
  }

  lemma VacuumedIsData(b: Block, dead: set<int>)
    requires b.Data?
    ensures Vacuumed(b, dead).Data?
  {
  }

  lemma VacuumProcOk(s: State, s1: State, p: nat)
    requires ProcOf(s, p).Scanning? && ProcOk(s, p, ProcOf(s, p)) && Grows(s, s1)
    requires ProcOf(s, p).blk < ProcOf(s, p).npages && BlocksOk(s)
    requires s1 == AfterVacuumPage(s, p) && Swept(s1, ProcOf(s1, p))
    ensures ProcOk(s1, p, ProcOf(s1, p))
  {
    hide Swept, Vacuumed, BlockOk;
    var v, v' := ProcOf(s, p), ProcOf(s1, p);
    forall i | 0 <= i < |v'.found| ensures IsData(s1, v'.found[i]) {
      if i < |v.found| { assert IsData(s, v.found[i]); } else { assert IsData(s, v.blk); }
    }
  }

  lemma StartVacuumInv(s: State, p: nat, dead: set<int>)
    requires Inv(s) && ProcOf(s, p).Idle?
    ensures Inv(SetProc(s, p, Scanning(dead, 1, |s.blocks|, [], |s.log|)))
  {
    hide Conserved, InsertedIn, RemovedFrom, MetaOk, Grows;
    var q := Scanning(dead, 1, |s.blocks|, [], |s.log|);
    var s1 := SetProc(s, p, q);
    GrowsItself(s, s1);
    MetaKept(s, s1);
    assert forall b: nat, t: Tuple | b < 1 || b >= |s.blocks| :: EntriesAt(s1, b)[t] == 0;
    OthersKept(s, s1, p, q);
  }

  lemma WriteListInv(s: State, p: nat)
    requires Inv(s) && ProcOf(s, p).Scanning? && s.owner == None
    ensures Inv(SetProc(s.(meta := Listed(s.meta, ProcOf(s, p).found)), p, Idle))
  {
    hide Conserved, InsertedIn, RemovedFrom, Swept, Grows;
    var v := ProcOf(s, p);
    var s1 := SetProc(s.(meta := Listed(s.meta, v.found)), p, Idle);
    assert ProcOk(s, p, v);
    GrowsItself(s, s1);
    forall i | 0 <= i < |v.found| ensures IsData(s1, s1.meta.blocks[i]) { SameData(s, s1, v.found[i]); }
    OthersKept(s, s1, p, Idle);
  }

  // ----- steps that change only the process, the free space map or the end of the file -----

  lemma ProcInv(s: State, s1: State, p: nat, q: Proc)
    requires Inv(s) && s1 == SetProc(s.(owner := s1.owner, free := s1.free), p, q)
    requires (forall b | b in s1.free :: 1 <= b < |s.blocks|) && ProcOk(s1, p, q)
    requires s1.owner == s.owner || (s.owner == None && s1.owner == Some(p))
    requires s1.owner == Some(p) ==> Owns(q)
    ensures Inv(s1)
  {
    hide Conserved, InsertedIn, RemovedFrom, Swept, Grows, ProcOk;
    GrowsItself(s, s1);
    forall i | 0 <= i < s1.meta.nEnd ensures IsData(s1, s1.meta.blocks[i]) { SameData(s, s1, s.meta.blocks[i]); }
    OthersKept(s, s1, p, q);
  }

  lemma ExtendInv(s: State, p: nat, t: Tuple)
    requires Inv(s) && s.owner == Some(p)
    ensures Inv(SetProc(s.(blocks := s.blocks + [New]), p, Extended(t, |s.blocks|)))
  {
    hide Conserved, InsertedIn, RemovedFrom, MetaOk, Swept, Grows;
    var q := Extended(t, |s.blocks|);
    var s1 := SetProc(s.(blocks := s.blocks + [New]), p, q);
    ExtendGrows(s, s1);
    MetaKept(s, s1);
    OthersKept(s, s1, p, q);
  }

  lemma ExtendGrows(s: State, s1: State)
    requires s1.blocks == s.blocks + [New] && s1.log == s.log && s1.size == s.size && s1.base == s.base
    ensures Grows(s, s1) && (Conserved(s) ==> Conserved(s1))
  {
    hide InsertedIn, RemovedFrom;
    assert forall b: nat :: EntriesAt(s1, b) == EntriesAt(s, b) && BaseAt(s1, b) == BaseAt(s, b);
  }

  /** Every step of every process keeps the invariant. */
  lemma NextInv(s: State, p: nat, a: Action)
    requires Inv(s) && Next(s, p, a).Some?
    ensures Inv(Next(s, p, a).value)
  {
    hide Inv, Added, AfterVacuumPage, Allocated, Listed, SetProc, Insert, BlocksOk;
    InvParts(s, p);
    match (ProcOf(s, p), a) {
      case (TryFirst(t, blk), FirstPage) => FirstPageInv(s, p, t, blk);
      case (Holding(t, c), ListedPage) => ListedPageInv(s, p, t, c);
      case (Holding(t, c), PopFree(blk, locked)) => PopFreeInv(s, p, t, c, blk, locked);
      case (Holding(t, c), FindNoFree) => FindNoFreeInv(s, p, t, c);
      case (NoFree(t), Extend) => ExtendInv(s, p, t);
      case (Extended(t, blk), InitPage) => AllocatedInv(s, p, blk, t);
      case (Idle, StartVacuum(dead)) => StartVacuumInv(s, p, dead);
      case (Scanning(_, _, _, _, _), VacuumPage) => VacuumPageInv(s, p);
      case (Scanning(_, _, _, _, _), WriteList) => WriteListInv(s, p);
      case (Arrived(t), ReadMeta) => ReadMetaInv(s, p, t);
      case (WantMeta(t, tried), LockMeta) => LockMetaInv(s, p, t, tried);
      case (Idle, StartInsert(t)) => QuietInv(s, p, Arrived(t));
      case (Idle, StartCleanup) => StartCleanupInv(s, p);
      case (Cleaning(blk, npages), CleanupPage) => CleanupInv(s, p, blk, npages);
      case (Cleaning(_, _), EndCleanup) => QuietInv(s, p, Idle);
    }
  }

  lemma InvParts(s: State, p: nat)
    requires Inv(s)
    ensures ProcOk(s, p, ProcOf(s, p)) && BlocksOk(s) && MetaOk(s)
    ensures |s.blocks| > 0 && (s.owner == Some(p) ==> Owns(ProcOf(s, p)))
  {
  }

  lemma FirstPageInv(s: State, p: nat, t: Tuple, blk: nat)
    requires Inv(s) && ProcOf(s, p) == TryFirst(t, blk)
    ensures Inv(Next(s, p, FirstPage).value)
  {
    hide Inv, Added;
    InvParts(s, p);
    var b := Added(s.size, BlockAt(s, blk), t);
    AddedExtends(s, blk, t);
    if b.Some? {
      InsertListed(s, p, blk, b.value, t, s.meta, s.owner);
    } else {
      QuietInv(s, p, WantMeta(t, Some(blk)));
    }
  }

  lemma ListedPageInv(s: State, p: nat, t: Tuple, c: nat)
    requires Inv(s) && ProcOf(s, p) == Holding(t, c) && c < s.meta.nEnd
    ensures Next(s, p, ListedPage).Some? && Inv(Next(s, p, ListedPage).value)
  {
    hide Inv, Added;
    InvParts(s, p);
    var blk := s.meta.blocks[c];
    assert IsData(s, blk);
    var b := Added(s.size, BlockAt(s, blk), t);
    AddedExtends(s, blk, t);
    if b.Some? {
      InsertListed(s, p, blk, b.value, t, s.meta.(nStart := c), None);
    } else {
      QuietInv(s, p, Holding(t, c + 1));
    }
  }

  lemma PopFreeInv(s: State, p: nat, t: Tuple, c: nat, blk: nat, locked: bool)
    requires Inv(s) && ProcOf(s, p) == Holding(t, c) && c >= s.meta.nEnd && blk in s.free
    ensures Inv(Next(s, p, PopFree(blk, locked)).value)
  {
    hide Inv;
    InvParts(s, p);
    var s1 := s.(free := s.free - {blk});
    SmallerMap(s, s1, p);
    if !locked && Reusable(BlockAt(s, blk)) { AllocatedInv(s1, p, blk, t); }
  }

  lemma FindNoFreeInv(s: State, p: nat, t: Tuple, c: nat)
    requires Inv(s) && ProcOf(s, p) == Holding(t, c)
    ensures Inv(SetProc(s, p, NoFree(t)))
  {
    hide Conserved;
    assert ProcOk(s, p, ProcOf(s, p));
    QuietInv(s, p, NoFree(t));
  }

  lemma SmallerMap(s: State, s1: State, p: nat)
    requires Inv(s) && s1 == s.(free := s1.free) && s1.free <= s.free && p in s.procs
    ensures Inv(s1)
  {
    hide Conserved, Swept, InsertedIn, RemovedFrom, Grows;
    assert s.procs == s.procs[p := s.procs[p]];
    assert ProcOk(s, p, ProcOf(s, p));
    GrowsItself(s, s1);
    Bystander(s, s1, p, ProcOf(s, p));
    ProcInv(s, s1, p, s.procs[p]);
  }

  lemma ReadMetaInv(s: State, p: nat, t: Tuple)
    requires Inv(s) && ProcOf(s, p) == Arrived(t) && s.owner == None
    ensures Inv(Next(s, p, ReadMeta).value)
  {
    hide Conserved;
    var q := AfterReadMeta(s.meta, t);
    ProcInv(s, SetProc(s, p, q), p, q);
  }

  lemma LockMetaInv(s: State, p: nat, t: Tuple, tried: Option<nat>)
    requires Inv(s) && ProcOf(s, p) == WantMeta(t, tried) && s.owner == None
    ensures Inv(Next(s, p, LockMeta).value)
  {
    hide Conserved;
    var q := Holding(t, FirstCursor(s.meta, tried));
    ProcInv(s, SetProc(s.(owner := Some(p)), p, q), p, q);
  }

  lemma StartCleanupInv(s: State, p: nat)
    requires Inv(s) && ProcOf(s, p).Idle?
    ensures Inv(SetProc(s, p, Cleaning(1, |s.blocks|)))
  {
    hide Conserved, Swept;
    QuietInv(s, p, Cleaning(1, |s.blocks|));
  }

  lemma CleanupInv(s: State, p: nat, blk: nat, npages: nat)
    requires Inv(s) && ProcOf(s, p) == Cleaning(blk, npages) && blk < npages
    ensures Inv(Next(s, p, CleanupPage).value)
  {
    hide Conserved;
    assert ProcOk(s, p, ProcOf(s, p));
    ProcInv(s, Next(s, p, CleanupPage).value, p, Cleaning(blk + 1, npages));
  }

  lemma QuietInv(s: State, p: nat, q: Proc)
    requires Inv(s) && ProcOk(SetProc(s, p, q), p, q) && (s.owner == Some(p) ==> Owns(q))
    ensures Inv(SetProc(s, p, q))
  {
    hide Conserved, Swept;
    ProcInv(s, SetProc(s, p, q), p, q);
  }

  // ----- runs -----

  /** An index just built: data blocks of the build, an empty list, no process under way. */
  predicate Init(s: State) {
    && BlocksOk(s) && s.meta == NotFull(0, 0, s.meta.blocks) && |s.meta.blocks| == META_BLOCKS
    && s.free == {} && s.owner == None && s.procs == map[] && s.log == []
    && |s.base| == |s.blocks| && forall b | 0 <= b < |s.blocks| :: s.base[b] == EntriesAt(s, b)
  }

  lemma InitInv(s: State)
    requires Init(s)
    ensures Inv(s)
  {
  }

  /** The state after a sequence of steps, each of some process; none if one cannot be taken. */
  function Run(s: State, steps: seq<(nat, Action)>): Option<State>
    decreases |steps|
  {
    if |steps| == 0 then Some(s) else
    var r := Run(s, steps[..|steps| - 1]);
    if r.None? then None else Next(r.value, steps[|steps| - 1].0, steps[|steps| - 1].1)
  }

  /** In every interleaving the invariant holds. */
  lemma {:induction false} RunInv(s: State, steps: seq<(nat, Action)>)
    requires Init(s) && Run(s, steps).Some?
    ensures Inv(Run(s, steps).value)
    decreases |steps|
  {
    hide Inv, Next, Init;
    if |steps| == 0 {
      InitInv(s);
    } else {
      RunInv(s, steps[..|steps| - 1]);
      var last := steps[|steps| - 1];
      NextInv(Run(s, steps[..|steps| - 1]).value, last.0, last.1);
    }
  }

  /** No entry is lost, duplicated or moved: in every block it occurs as often as at the start, plus
      its insertions there, less its removals there. */
  lemma NothingLost(s: State, steps: seq<(nat, Action)>, b: nat, t: Tuple)
    requires Init(s) && Run(s, steps).Some?
    ensures var s1 := Run(s, steps).value;
            EntriesAt(s1, b)[t] + RemovedFrom(s1.log, b, t) == EntriesAt(s, b)[t] + InsertedIn(s1.log, 0, b, t)
  {
    hide Run, InsertedIn, RemovedFrom;
    RunInv(s, steps);
    RunBase(s, steps);
    var s1 := Run(s, steps).value;
    assert Conserved(s1);
  }

  lemma {:induction false} RunBase(s: State, steps: seq<(nat, Action)>)
    requires Run(s, steps).Some?
    ensures Run(s, steps).value.base == s.base
    decreases |steps|
  {
    if |steps| > 0 { RunBase(s, steps[..|steps| - 1]); }
  }

  /** When a VACUUM is about to write its list, every entry it wanted gone has been inserted, into that
      block, since it began: none that was there before is left. */
  lemma VacuumRemovesAll(s: State, steps: seq<(nat, Action)>, p: nat, b: nat, t: Tuple)
    requires Init(s) && Run(s, steps).Some?
    requires var s1 := Run(s, steps).value;
             ProcOf(s1, p).Scanning? && Next(s1, p, WriteList).Some? && t.heapPtr in ProcOf(s1, p).dead
    ensures var s1 := Run(s, steps).value;
            EntriesAt(s1, b)[t] <= InsertedIn(s1.log, ProcOf(s1, p).start, b, t)
  {
    hide Run, InsertedIn, EntriesAt;
    RunInv(s, steps);
    var s1 := Run(s, steps).value;
    assert ProcOk(s1, p, ProcOf(s1, p));
    assert Swept(s1, ProcOf(s1, p));
  }

  /** Listed blocks are initialised data blocks within the file, and deleted blocks are empty. */
  lemma ListStaysValid(s: State, steps: seq<(nat, Action)>, i: nat, b: nat)
    requires Init(s) && Run(s, steps).Some?
    ensures var s1 := Run(s, steps).value;
            && s1.meta.nStart <= s1.meta.nEnd <= META_BLOCKS == |s1.meta.blocks|
            && (i < s1.meta.nEnd ==> IsData(s1, s1.meta.blocks[i]))
            && (1 <= b < |s1.blocks| && Reusable(s1.blocks[b]) ==> EntriesAt(s1, b) == multiset{})
  {
    hide Run, Conserved, Swept;
    RunInv(s, steps);
  }

  // ----- every row once, and only dead ones out -----

  /** The tuple a process is still to insert. */
  predicate Carries(q: Proc, t: Tuple) {
    match q
    case Arrived(u) => u == t
    case TryFirst(u, _) => u == t
    case WantMeta(u, _) => u == t
    case Holding(u, _) => u == t
    case NoFree(u) => u == t
    case Extended(u, _) => u == t
    case _ => false
  }

  function Carriers(procs: map<nat, Proc>, t: Tuple): set<nat> { set p | p in procs && Carries(procs[p], t) }

  function InsertedAnywhere(log: seq<Event>, t: Tuple): nat {
    if |log| == 0 then 0 else
    InsertedAnywhere(log[..|log| - 1], t) + if log[|log| - 1].Inserted? && log[|log| - 1].t == t then 1 else 0
  }

  function Started(steps: seq<(nat, Action)>, t: Tuple): nat {
    if |steps| == 0 then 0 else
    Started(steps[..|steps| - 1], t) + if steps[|steps| - 1].1 == StartInsert(t) then 1 else 0
  }

  lemma CarriersStep(procs: map<nat, Proc>, p: nat, q: Proc, t: Tuple)
    ensures var was := p in procs && Carries(procs[p], t);
            |Carriers(procs[p := q], t)| == |Carriers(procs, t)|
              + (if Carries(q, t) then 1 else 0) - (if was then 1 else 0)
  {
    hide Carries;
    var a, b := Carriers(procs, t), Carriers(procs[p := q], t);
    if Carries(q, t) {
      assert b == a + {p};
    } else {
      assert b == a - {p};
    }
  }

  lemma AnywhereStep(log: seq<Event>, e: Event, t: Tuple)
    ensures InsertedAnywhere(log + [e], t) == InsertedAnywhere(log, t) + if e.Inserted? && e.t == t then 1 else 0
  {
    assert (log + [e])[..|log|] == log;
  }

  /** One step of p changes at most its own entry in the process table, and the log by one event at
      most; p's tuple is either still with it or in that event. */
  lemma OneTuple(s: State, p: nat, a: Action, t: Tuple)
    requires Next(s, p, a).Some?
    ensures var s1 := Next(s, p, a).value;
            && (s1.procs == s.procs || s1.procs == s.procs[p := ProcOf(s1, p)])
            && (s1.log == s.log || (|s1.log| == |s.log| + 1 && s1.log == s.log + [s1.log[|s.log|]]))
            && (if Carries(ProcOf(s, p), t) then 1 else 0) + (if a == StartInsert(t) then 1 else 0)
               == (if Carries(ProcOf(s1, p), t) then 1 else 0) + NewInsert(s, s1, t)
  {
  }

  function NewInsert(s: State, s1: State, t: Tuple): nat {
    if |s1.log| == |s.log| + 1 && s1.log[|s.log|].Inserted? && s1.log[|s.log|].t == t then 1 else 0
  }

  /** No row is inserted twice or forgotten: each one started is either in the log once or still being
      carried by a process. */
  lemma {:induction false} InsertedOnce(s: State, steps: seq<(nat, Action)>, t: Tuple)
    requires Init(s) && Run(s, steps).Some?
    ensures var s1 := Run(s, steps).value;
            InsertedAnywhere(s1.log, t) + |Carriers(s1.procs, t)| == Started(steps, t)
    decreases |steps|
  {
    hide Next, BlocksOk, Carries;
    if |steps| == 0 {
      assert Carriers(s.procs, t) == {};
    } else {
      var (p, a) := steps[|steps| - 1];
      var s0, s1 := Run(s, steps[..|steps| - 1]).value, Run(s, steps).value;
      InsertedOnce(s, steps[..|steps| - 1], t);
      OneTuple(s0, p, a, t);
      if s1.procs == s0.procs {
        assert ProcOf(s1, p) == ProcOf(s0, p);
      } else {
        CarriersStep(s0.procs, p, ProcOf(s1, p), t);
      }
      if s1.log != s0.log { AnywhereStep(s0.log, s1.log[|s0.log|], t); }
      IdleCarriesNothing(t);
    }
  }

  lemma IdleCarriesNothing(t: Tuple)
    ensures !Carries(Idle, t)
  {
  }

  /** A step removes only entries that the VACUUM taking it wants gone. */
  lemma RemovesOnlyDead(s: State, p: nat, a: Action, t: Tuple)
    requires Inv(s) && Next(s, p, a).Some?
    requires var s1 := Next(s, p, a).value; |s1.log| > |s.log| && s1.log[|s.log|].Removed? && s1.log[|s.log|].ts[t] > 0
    ensures a.VacuumPage? && ProcOf(s, p).Scanning? && t.heapPtr in ProcOf(s, p).dead
  {
    hide Inv, Added, Vacuumed;
    var q := ProcOf(s, p);
    assert q.Scanning? && a.VacuumPage?;
    var b := BlockAt(s, q.blk);
    VacuumCounts(b, q.dead, t);
    LessSome(multiset(b.tuples), multiset(Vacuumed(b, q.dead).tuples), t);
  }
}
