/** What one process of a bloom index achieves when the others stand still: an insertion ends, in the block
    it should, and a VACUUM lists exactly the blocks that have room. */
module BloomProgress {
  import opened BloomPage
  import opened BloomProtocol
  import opened Common

  // ----- where an insertion should go -----

  /** The tuple a process is inserting. */
  function TupleOf(q: Proc): Option<Tuple> {
    match q
    case Arrived(t) => Some(t)
    case TryFirst(t, _) => Some(t)
    case WantMeta(t, _) => Some(t)
    case Holding(t, _) => Some(t)
    case NoFree(t) => Some(t)
    case Extended(t, _) => Some(t)
    case _ => None
  }

  /** A data block that is deleted, so that it can be begun anew, or has space for one more tuple. */
  predicate HasRoom(s: State, b: nat) {
    b < |s.blocks| && s.blocks[b].Data? &&
    (s.blocks[b].deleted || 8192 - 24 - 8 - |s.blocks[b].tuples| * s.size >= s.size)
  }

  /** The i-th listed block is the first from `from` on with room. */
  predicate FirstListed(s: State, from: nat, i: nat) {
    && from <= i < s.meta.nEnd <= |s.meta.blocks| && HasRoom(s, s.meta.blocks[i])
    && forall j | from <= j < i :: !HasRoom(s, s.meta.blocks[j])
  }

  /** No listed block from `from` on has room. */
  predicate NoneListed(s: State, from: nat) {
    forall j | from <= j < s.meta.nEnd && j < |s.meta.blocks| :: !HasRoom(s, s.meta.blocks[j])
  }

  /** A block never initialised, or deleted. */
  predicate Unused(s: State, b: nat) {
    b < |s.blocks| && (s.blocks[b].New? || (s.blocks[b].Data? && s.blocks[b].deleted))
  }

  /** The first listed block with room; if there is none, a free block that is unused; if there is none
      either, the block after the last. */
  ghost predicate MayTake(s: State, from: nat, blk: nat) {
    || (exists i: nat :: FirstListed(s, from, i) && s.meta.blocks[i] == blk)
    || (NoneListed(s, from) && blk in s.free && Unused(s, blk))
    || (NoneListed(s, from) && blk == |s.blocks| && forall b | b in s.free :: !Unused(s, b))
  }

  /** The block an insertion should end in, from where the process is now. */
  ghost predicate Target(s: State, p: nat, blk: nat) {
    match ProcOf(s, p)
    case Arrived(_) => MayTake(s, s.meta.nStart, blk)
    case TryFirst(_, b) => if HasRoom(s, b) then blk == b else MayTake(s, FirstCursor(s.meta, Some(b)), blk)
    case WantMeta(_, tried) => MayTake(s, FirstCursor(s.meta, tried), blk)
    case Holding(_, c) => MayTake(s, c, blk)
    case NoFree(_) => blk == |s.blocks|
    case Extended(_, b) => blk == b
    case _ => false
  }

  /** The tuples a block keeps when it gets one more. */
  function Kept(s: State, b: nat): seq<Tuple> {
    if b < |s.blocks| && s.blocks[b].Data? && !s.blocks[b].deleted then s.blocks[b].tuples else []
  }

  /** If the process is trying a block, that block heads the list. */
  predicate OnHead(s: State, p: nat) {
    ProcOf(s, p).TryFirst? ==> Head(s.meta, ProcOf(s, p).blk)
  }

  predicate Head(m: NotFull, blk: nat) { m.nStart < m.nEnd && m.nStart < |m.blocks| && m.blocks[m.nStart] == blk }

  /** The insertion has been done: one entry more, in that block and nowhere else; the process is idle, the
      metapage free, and the block heads the list if the process went by the list. */
  ghost predicate Done(s: State, x: State, p: nat, t: Tuple, blk: nat) {
    && Target(s, p, blk) && blk <= |s.blocks|
    && x.blocks == (if blk < |s.blocks| then s.blocks else s.blocks + [New])[blk := Data(false, Kept(s, blk) + [t])]
    && x.log == s.log + [Inserted(blk, t)] && x.procs == s.procs[p := Idle] && x.owner == None
    && x.free <= s.free && (OnHead(s, p) ==> Head(x.meta, blk))
  }

  /** It is under way: only the process, the owner of the metapage and the free space map may have changed,
      and the file may have been extended; whatever it may lead to it might have led to from the start. */
  ghost predicate Underway(s: State, x: State, p: nat, t: Tuple) {
    && TupleOf(ProcOf(x, p)) == Some(t) && (x.owner == None || x.owner == Some(p)) && Inv(x)
    && x.size == s.size && x.log == s.log && x.meta == s.meta && x.free <= s.free
    && x.procs == s.procs[p := ProcOf(x, p)]
    && (x.blocks == s.blocks || (ProcOf(x, p) == Extended(t, |s.blocks|) && x.blocks == s.blocks + [New]))
    && (forall blk :: Target(x, p, blk) ==> Target(s, p, blk)) && (OnHead(s, p) ==> OnHead(x, p))
  }

  /** A bound on the steps that are left. */
  function Rank(s: State, p: nat): nat {
    match ProcOf(s, p)
    case Arrived(_) => s.meta.nEnd + |s.free| + 6
    case TryFirst(_, _) => s.meta.nEnd + |s.free| + 5
    case WantMeta(_, _) => s.meta.nEnd + |s.free| + 4
    case Holding(_, c) => (if c < s.meta.nEnd then s.meta.nEnd - c else 0) + |s.free| + 3
    case NoFree(_) => 2
    case Extended(_, _) => 1
    case _ => 0
  }

  /** A step of an insertion by p, with no one else's lock in the way. */
  predicate InsertStep(p: nat, step: (nat, Action)) {
    step.0 == p &&
    match step.1
    case ReadMeta => true
    case FirstPage => true
    case LockMeta => true
    case ListedPage => true
    case PopFree(_, locked) => !locked
    case FindNoFree => true
    case Extend => true
    case InitPage => true
    case _ => false
  }

  // ----- one step -----

  /** Block choice depends on blocks, list and free space map alone. */
  lemma SameChoice(x: State, x1: State, from: nat, blk: nat)
    requires x1.blocks == x.blocks && x1.meta == x.meta && x1.free == x.free && x1.size == x.size
    ensures MayTake(x1, from, blk) ==> MayTake(x, from, blk)
  {
    assert forall b: nat :: HasRoom(x1, b) == HasRoom(x, b);
    assert forall b: nat :: Unused(x1, b) == Unused(x, b);
    if i: nat :| FirstListed(x1, from, i) && x1.meta.blocks[i] == blk { assert FirstListed(x, from, i); }
  }

  /** A listed block without room is passed over. */
  lemma SkipFull(x: State, from: nat, blk: nat)
    requires from < x.meta.nEnd && from < |x.meta.blocks| && !HasRoom(x, x.meta.blocks[from])
    requires MayTake(x, from + 1, blk)
    ensures MayTake(x, from, blk)
  {
    hide HasRoom, Unused;
    if i: nat :| FirstListed(x, from + 1, i) && x.meta.blocks[i] == blk { assert FirstListed(x, from, i); }
  }

  /** The attempt on a data block succeeds exactly if it has room, and then adds the tuple. */
  lemma AddedIff(x: State, b: nat, t: Tuple)
    requires IsData(x, b)
    ensures Added(x.size, BlockAt(x, b), t) == if HasRoom(x, b) then Some(Data(false, Kept(x, b) + [t])) else None
  {
    EmptyPageHasRoom(x.size);
  }

  /** The state a process is in, and what it knows. */
  ghost predicate Inserting(x: State, p: nat, t: Tuple) {
    Inv(x) && TupleOf(ProcOf(x, p)) == Some(t) && (x.owner == None || x.owner == Some(p))
  }

  /** Steps of p that leave blocks, list and history alone. */
  lemma Advances(x: State, x1: State, p: nat, t: Tuple)
    requires Inserting(x, p, t) && Inv(x1) && TupleOf(ProcOf(x1, p)) == Some(t)
    requires x1 == SetProc(x.(owner := x1.owner, free := x1.free), p, ProcOf(x1, p))
    requires (x1.owner == None || x1.owner == Some(p)) && x1.free <= x.free
    requires forall blk :: Target(x1, p, blk) ==> Target(x, p, blk)
    requires OnHead(x, p) ==> OnHead(x1, p)
    ensures Underway(x, x1, p, t)
  {
    hide Inv, Target;
  }

  lemma StepReadMeta(x: State, p: nat, t: Tuple)
    requires Inserting(x, p, t) && Next(x, p, ReadMeta).Some?
    ensures var x1 := Next(x, p, ReadMeta).value; Underway(x, x1, p, t) && Rank(x1, p) < Rank(x, p)
  {
    hide Inv, MayTake, HasRoom;
    var x1 := Next(x, p, ReadMeta).value;
    NextInv(x, p, ReadMeta);
    MetaBounds(x);
    var m := x.meta;
    forall blk | Target(x1, p, blk) ensures Target(x, p, blk) {
      if m.nStart < m.nEnd {
        var b := m.blocks[m.nStart];
        if HasRoom(x1, b) {
          SameRoom(x, x1, b);
          TakeListed(x, m.nStart, m.nStart);
        } else {
          SameRoom(x, x1, b);
          SameChoice(x, x1, m.nStart + 1, blk);
          SkipFull(x, m.nStart, blk);
        }
      } else {
        SameChoice(x, x1, m.nStart, blk);
      }
    }
    Advances(x, x1, p, t);
  }

  lemma MetaBounds(x: State)
    requires Inv(x)
    ensures x.meta.nStart <= x.meta.nEnd <= |x.meta.blocks| && |x.meta.blocks| > 0
    ensures forall i | 0 <= i < x.meta.nEnd :: IsData(x, x.meta.blocks[i])
    ensures forall b | b in x.free :: 1 <= b < |x.blocks|
    ensures |x.blocks| > 0
  {
  }

  lemma SameRoom(x: State, x1: State, b: nat)
    requires x1.blocks == x.blocks && x1.size == x.size
    ensures HasRoom(x1, b) == HasRoom(x, b)
  {
  }

  lemma TakeListed(x: State, from: nat, i: nat)
    requires FirstListed(x, from, i)
    ensures MayTake(x, from, x.meta.blocks[i])
  {
  }

  lemma StepFirstPage(x: State, p: nat, t: Tuple)
    requires Inserting(x, p, t) && Next(x, p, FirstPage).Some?
    ensures var x1 := Next(x, p, FirstPage).value;
            if ProcOf(x1, p).Idle? then exists blk :: Done(x, x1, p, t, blk)
            else Underway(x, x1, p, t) && Rank(x1, p) < Rank(x, p)
  {
    hide Inv, MayTake, HasRoom, Added;
    var x1 := Next(x, p, FirstPage).value;
    var b := ProcOf(x, p).blk;
    TryingData(x, p);
    AddedIff(x, b, t);
    if HasRoom(x, b) {
      assert Done(x, x1, p, t, b);
    } else {
      NextInv(x, p, FirstPage);
      forall blk | Target(x1, p, blk) ensures Target(x, p, blk) {
        SameChoice(x, x1, FirstCursor(x.meta, Some(b)), blk);
      }
      Advances(x, x1, p, t);
    }
  }

  lemma TryingData(x: State, p: nat)
    requires Inv(x) && ProcOf(x, p).TryFirst?
    ensures IsData(x, ProcOf(x, p).blk) && x.owner != Some(p)
  {
    assert ProcOk(x, p, ProcOf(x, p));
  }

  lemma StepLockMeta(x: State, p: nat, t: Tuple)
    requires Inserting(x, p, t) && Next(x, p, LockMeta).Some?
    ensures var x1 := Next(x, p, LockMeta).value; Underway(x, x1, p, t) && Rank(x1, p) < Rank(x, p)
  {
    hide Inv, MayTake;
    var x1 := Next(x, p, LockMeta).value;
    NextInv(x, p, LockMeta);
    var c := FirstCursor(x.meta, ProcOf(x, p).tried);
    forall blk | Target(x1, p, blk) ensures Target(x, p, blk) { SameChoice(x, x1, c, blk); }
    Advances(x, x1, p, t);
  }

  lemma StepListedPage(x: State, p: nat, t: Tuple)
    requires Inserting(x, p, t) && Next(x, p, ListedPage).Some?
    ensures var x1 := Next(x, p, ListedPage).value;
            if ProcOf(x1, p).Idle? then exists blk :: Done(x, x1, p, t, blk)
            else Underway(x, x1, p, t) && Rank(x1, p) < Rank(x, p)
  {
    hide Inv, MayTake, HasRoom, Added;
    var x1 := Next(x, p, ListedPage).value;
    var c := ProcOf(x, p).cursor;
    MetaBounds(x);
    var b := x.meta.blocks[c];
    AddedIff(x, b, t);
    if HasRoom(x, b) {
      TakeListed(x, c, c);
      assert Done(x, x1, p, t, b);
    } else {
      NextInv(x, p, ListedPage);
      forall blk | Target(x1, p, blk) ensures Target(x, p, blk) {
        SameChoice(x, x1, c + 1, blk);
        SkipFull(x, c, blk);
      }
      Advances(x, x1, p, t);
    }
  }

  lemma StepPopFree(x: State, p: nat, t: Tuple, b: nat)
    requires Inserting(x, p, t) && Next(x, p, PopFree(b, false)).Some?
    ensures var x1 := Next(x, p, PopFree(b, false)).value;
            if ProcOf(x1, p).Idle? then exists blk :: Done(x, x1, p, t, blk)
            else Underway(x, x1, p, t) && Rank(x1, p) < Rank(x, p)
  {
    hide Inv, HasRoom;
    var a := PopFree(b, false);
    var x1 := Next(x, p, a).value;
    MetaBounds(x);
    if Reusable(BlockAt(x, b)) {
      assert Unused(x, b) && Kept(x, b) == [];
      assert [] + [t] == [t];
      assert Done(x, x1, p, t, b);
    } else {
      NextInv(x, p, a);
      assert x.procs == x.procs[p := ProcOf(x, p)];
      forall blk | Target(x1, p, blk) ensures Target(x, p, blk) { FewerFree(x, x1, b, ProcOf(x, p).cursor, blk); }
      Advances(x, x1, p, t);
      assert x.free == x1.free + {b};
    }
  }

  lemma FewerFree(x: State, x1: State, b: nat, from: nat, blk: nat)
    requires x1.blocks == x.blocks && x1.meta == x.meta && x1.free == x.free - {b} && x1.size == x.size
    requires !Unused(x, b) && MayTake(x1, from, blk)
    ensures MayTake(x, from, blk)
  {
    assert forall c: nat :: HasRoom(x1, c) == HasRoom(x, c);
    assert forall c: nat :: Unused(x1, c) == Unused(x, c);
    if i: nat :| FirstListed(x1, from, i) && x1.meta.blocks[i] == blk { assert FirstListed(x, from, i); }
  }

  lemma StepFindNoFree(x: State, p: nat, t: Tuple)
    requires Inserting(x, p, t) && Next(x, p, FindNoFree).Some?
    ensures var x1 := Next(x, p, FindNoFree).value; Underway(x, x1, p, t) && Rank(x1, p) < Rank(x, p)
  {
    hide Inv, HasRoom;
    var x1 := Next(x, p, FindNoFree).value;
    NextInv(x, p, FindNoFree);
    Advances(x, x1, p, t);
  }

  lemma StepExtend(x: State, p: nat, t: Tuple)
    requires Inserting(x, p, t) && Next(x, p, Extend).Some?
    ensures var x1 := Next(x, p, Extend).value; Underway(x, x1, p, t) && Rank(x1, p) < Rank(x, p)
  {
    hide Inv;
    NextInv(x, p, Extend);
  }

  lemma StepInitPage(x: State, p: nat, t: Tuple)
    requires Inserting(x, p, t) && Next(x, p, InitPage).Some?
    ensures exists blk :: Done(x, Next(x, p, InitPage).value, p, t, blk)
  {
    hide Inv, HasRoom;
    var b := ProcOf(x, p).blk;
    ExtendedNew(x, p);
    MetaBounds(x);
    assert [] + [t] == [t];
    assert Done(x, Next(x, p, InitPage).value, p, t, b);
  }

  lemma ExtendedNew(x: State, p: nat)
    requires Inv(x) && ProcOf(x, p).Extended?
    ensures 1 <= ProcOf(x, p).blk < |x.blocks| && x.blocks[ProcOf(x, p).blk].New?
  {
    assert ProcOk(x, p, ProcOf(x, p));
  }

  /** Every step of an insertion brings it nearer to its end, or ends it as it should. */
  lemma Step(x: State, p: nat, t: Tuple, a: Action)
    requires Inserting(x, p, t) && InsertStep(p, (p, a)) && Next(x, p, a).Some?
    ensures var x1 := Next(x, p, a).value;
            if ProcOf(x1, p).Idle? then exists blk :: Done(x, x1, p, t, blk)
            else Underway(x, x1, p, t) && Rank(x1, p) < Rank(x, p)
  {
    hide Inv, Done, Underway, Rank, Next, Inserting;
    match a {
      case ReadMeta => StepReadMeta(x, p, t); StillAt(x, Next(x, p, a).value, p, t);
      case FirstPage => StepFirstPage(x, p, t);
      case LockMeta => StepLockMeta(x, p, t); StillAt(x, Next(x, p, a).value, p, t);
      case ListedPage => StepListedPage(x, p, t);
      case PopFree(b, _) => StepPopFree(x, p, t, b);
      case FindNoFree => StepFindNoFree(x, p, t); StillAt(x, Next(x, p, a).value, p, t);
      case Extend => StepExtend(x, p, t); StillAt(x, Next(x, p, a).value, p, t);
      case InitPage => StepInitPage(x, p, t); IdleAfter(x, p, t);
    }
  }

  lemma StillAt(s: State, x: State, p: nat, t: Tuple)
    requires Underway(s, x, p, t)
    ensures !ProcOf(x, p).Idle?
  {
    hide Inv, Target;
  }

  lemma IdleAfter(x: State, p: nat, t: Tuple)
    requires Next(x, p, InitPage).Some?
    ensures ProcOf(Next(x, p, InitPage).value, p).Idle?
  {
  }

  /** A step can always be taken. */
  lemma CanStep(x: State, p: nat, t: Tuple) returns (a: Action)
    requires Inserting(x, p, t)
    ensures InsertStep(p, (p, a)) && Next(x, p, a).Some?
  {
    hide Inv;
    MetaBounds(x);
    OwnerStands(x, p);
    match ProcOf(x, p) {
      case Arrived(_) => a := ReadMeta;
      case TryFirst(_, _) => a := FirstPage;
      case WantMeta(_, _) => a := LockMeta;
      case Holding(_, c) =>
        if c < x.meta.nEnd {
          a := ListedPage;
        } else if x.free == {} {
          a := FindNoFree;
        } else {
          var b :| b in x.free;
          a := PopFree(b, false);
        }
      case NoFree(_) => a := Extend;
      case Extended(_, _) => a := InitPage;
    }
  }

  lemma OwnerStands(x: State, p: nat)
    requires Inv(x)
    ensures x.owner == Some(p) ==> Owns(ProcOf(x, p))
  {
  }

  // ----- whole insertions -----

  lemma Then(s: State, x: State, x1: State, p: nat, t: Tuple)
    requires Underway(s, x, p, t) && Underway(x, x1, p, t) && !ProcOf(x, p).Extended?
    ensures Underway(s, x1, p, t)
  {
    hide Inv, Target;
  }

  lemma ThenDone(s: State, x: State, x1: State, p: nat, t: Tuple, blk: nat)
    requires Underway(s, x, p, t) && Done(x, x1, p, t, blk)
    ensures Done(s, x1, p, t, blk)
  {
    hide Inv, MayTake;
    if x.blocks != s.blocks { assert blk == |s.blocks| && Kept(x, blk) == Kept(s, blk) == []; }
  }

  lemma DoneIsIdle(s: State, x: State, p: nat, t: Tuple, blk: nat)
    requires Done(s, x, p, t, blk)
    ensures ProcOf(x, p).Idle? && Rank(x, p) == 0
  {
    hide Target;
  }

  /** An insertion ends with at most as many steps as its rank: any steps that p takes alone leave it under
      way and that much nearer to its end, or have ended it with one entry more in the right block. */
  lemma {:induction false} InsertionRun(s: State, p: nat, t: Tuple, steps: seq<(nat, Action)>)
    requires Inserting(s, p, t) && (forall i | 0 <= i < |steps| :: InsertStep(p, steps[i])) && Run(s, steps).Some?
    ensures var x := Run(s, steps).value;
            && Rank(x, p) + |steps| <= Rank(s, p)
            && if ProcOf(x, p).Idle? then exists blk :: Done(s, x, p, t, blk) else Underway(s, x, p, t)
    decreases |steps|
  {
    hide Inserting, Underway, Done, Next, Rank, InsertStep;
    if |steps| == 0 {
      StartsUnderway(s, p, t);
    } else {
      var init, step := steps[..|steps| - 1], steps[|steps| - 1];
      InsertionRun(s, p, t, init);
      var x, x1 := Run(s, init).value, Run(s, steps).value;
      assert InsertStep(p, step);
      StepByP(p, step);
      IdleStops(x, p, step.1);
      UnderwayInserts(s, x, p, t);
      Step(x, p, t, step.1);
      if ProcOf(x1, p).Idle? {
        var blk :| Done(x, x1, p, t, blk);
        ThenDone(s, x, x1, p, t, blk);
        DoneIsIdle(x, x1, p, t, blk);
        RankPositive(x, p, t);
      } else {
        ExtendedEnds(x, p, t, step.1);
        Then(s, x, x1, p, t);
      }
    }
  }

  lemma StartsUnderway(s: State, p: nat, t: Tuple)
    requires Inserting(s, p, t)
    ensures Underway(s, s, p, t) && !ProcOf(s, p).Idle?
  {
    hide Inv, Target;
  }

  lemma StepByP(p: nat, step: (nat, Action))
    requires InsertStep(p, step)
    ensures step == (p, step.1)
  {
  }

  lemma IdleStops(x: State, p: nat, a: Action)
    requires InsertStep(p, (p, a)) && Next(x, p, a).Some?
    ensures !ProcOf(x, p).Idle?
  {
  }

  lemma UnderwayInserts(s: State, x: State, p: nat, t: Tuple)
    requires Underway(s, x, p, t)
    ensures Inserting(x, p, t)
  {
    hide Inv, Target;
  }

  lemma RankPositive(x: State, p: nat, t: Tuple)
    requires Inserting(x, p, t)
    ensures Rank(x, p) > 0
  {
    hide Inv;
  }

  lemma ExtendedEnds(x: State, p: nat, t: Tuple, a: Action)
    requires Inserting(x, p, t) && InsertStep(p, (p, a)) && Next(x, p, a).Some? && !ProcOf(Next(x, p, a).value, p).Idle?
    ensures !ProcOf(x, p).Extended?
  {
    hide Inv;
  }

  /** And it can always be brought to its end. */
  lemma {:induction false} Complete(s: State, p: nat, t: Tuple, steps: seq<(nat, Action)>)
      returns (all: seq<(nat, Action)>)
    requires Inserting(s, p, t) && (forall i | 0 <= i < |steps| :: InsertStep(p, steps[i])) && Run(s, steps).Some?
    ensures forall i | 0 <= i < |all| :: InsertStep(p, all[i])
    ensures Run(s, all).Some? && exists blk :: Done(s, Run(s, all).value, p, t, blk)
    decreases Rank(s, p) - |steps|
  {
    hide Inserting, Underway, Done, Next, Rank, InsertStep;
    InsertionRun(s, p, t, steps);
    var x := Run(s, steps).value;
    if ProcOf(x, p).Idle? {
      all := steps;
    } else {
      UnderwayInserts(s, x, p, t);
      var a := CanStep(x, p, t);
      var more := steps + [(p, a)];
      assert more[..|steps|] == steps;
      InsertionRun(s, p, t, more);
      all := Complete(s, p, t, more);
    }
  }

  /** From any state a run can reach in which the metapage is free, a process with nothing to do can insert
      any tuple by steps of its own, at most nEnd + |free| + 7 of them; every way of taking them ends, and
      ends in the block that MayTake names. */
  lemma InsertionCompletes(s: State, p: nat, t: Tuple) returns (steps: seq<(nat, Action)>)
    requires Inv(s) && s.owner == None && ProcOf(s, p).Idle?
    ensures var s1 := SetProc(s, p, Arrived(t));
            && Next(s, p, StartInsert(t)) == Some(s1) && |steps| <= s.meta.nEnd + |s.free| + 6
            && Run(s1, steps).Some? && exists blk :: InsertedAlone(s, Run(s1, steps).value, p, t, blk)
  {
    hide Inv, Done;
    var s1 := SetProc(s, p, Arrived(t));
    NextInv(s, p, StartInsert(t));
    steps := Complete(s1, p, t, []);
    InsertionRun(s1, p, t, steps);
    var blk :| Done(s1, Run(s1, steps).value, p, t, blk);
    FromIdle(s, Run(s1, steps).value, p, t, blk);
  }

  /** One entry more in the block named, the rest as it was; the block heads the list for the next one. */
  ghost predicate InsertedAlone(s: State, x: State, p: nat, t: Tuple, blk: nat) {
    && MayTake(s, s.meta.nStart, blk) && blk <= |s.blocks|
    && x.blocks == (if blk < |s.blocks| then s.blocks else s.blocks + [New])[blk := Data(false, Kept(s, blk) + [t])]
    && x.log == s.log + [Inserted(blk, t)] && ProcOf(x, p).Idle? && x.owner == None && Head(x.meta, blk)
  }

  lemma FromIdle(s: State, x: State, p: nat, t: Tuple, blk: nat)
    requires Done(SetProc(s, p, Arrived(t)), x, p, t, blk)
    ensures InsertedAlone(s, x, p, t, blk)
  {
    hide MayTake;
    SameChoice(s, SetProc(s, p, Arrived(t)), s.meta.nStart, blk);
  }

  // ----- what a VACUUM lists -----

  /** A data block in use that holds tuples and has space for one more. */
  predicate Listable(s: State, b: nat) {
    && b < |s.blocks| && s.blocks[b].Data? && !s.blocks[b].deleted && |s.blocks[b].tuples| > 0
    && 8192 - 24 - 8 - |s.blocks[b].tuples| * s.size >= s.size
  }

  /** The first 2004 of the listable blocks below n, in increasing order. */
  predicate ListsThem(found: seq<nat>, s: State, n: nat) {
    && |found| <= 2004 && (forall i, j | 0 <= i < j < |found| :: found[i] < found[j])
    && (forall i | 0 <= i < |found| :: found[i] < n && Listable(s, found[i]))
    && (forall b: nat | b < n && Listable(s, b) :: b in found || (|found| == 2004 && found[2003] < b))
  }

  /** Block b after a VACUUM: without the tuples it wants gone, and deleted if that leaves none of some. */
  predicate Cleaned(s: State, x: State, b: nat, dead: set<int>)
    requires b < |s.blocks| == |x.blocks|
  {
    var was, now := s.blocks[b], x.blocks[b];
    if was.Data? && !was.deleted then
      && now.Data? && now.tuples == Survivors(was.tuples, p => p in dead)
      && (now.deleted <==> |was.tuples| > 0 && |now.tuples| == 0)
    else now == was
  }

  /** A VACUUM alone, on its way: blocks passed are cleaned and listed as they should be, the others as
      they were. */
  ghost predicate Sweeping(s: State, x: State, p: nat, dead: set<int>, blk: nat) {
    && ProcOf(x, p).Scanning? && ProcOf(x, p).dead == dead && ProcOf(x, p).blk == blk
    && ProcOf(x, p).npages == |s.blocks| == |x.blocks| && 1 <= blk <= |s.blocks|
    && x.size == s.size && x.meta == s.meta && x.free == s.free && x.owner == None
    && (forall b | 1 <= b < blk :: Cleaned(s, x, b, dead))
    && (forall b | blk <= b < |s.blocks| :: x.blocks[b] == s.blocks[b])
    && x.blocks[0] == s.blocks[0] && ListsThem(ProcOf(x, p).found, x, blk)
  }

  /** What it leaves: every block cleaned, and as the list exactly the blocks with tuples and room. */
  ghost predicate VacuumedAlone(s: State, x: State, p: nat, dead: set<int>) {
    && |x.blocks| == |s.blocks| && (forall b | 1 <= b < |s.blocks| :: Cleaned(s, x, b, dead))
    && x.meta.nStart == 0 && x.meta.nEnd <= |x.meta.blocks| && ListsThem(x.meta.blocks[..x.meta.nEnd], x, |x.blocks|)
    && ProcOf(x, p).Idle? && x.free == s.free
  }

  /** The only step a scanning VACUUM can take. */
  lemma ScanStep(x: State, p: nat, a: Action)
    requires ProcOf(x, p).Scanning? && Next(x, p, a).Some?
    ensures a == if ProcOf(x, p).blk < ProcOf(x, p).npages then VacuumPage else WriteList
  {
  }

  lemma SameListable(x: State, x1: State, b: nat)
    requires x1.size == x.size && BlockAt(x1, b) == BlockAt(x, b) && |x1.blocks| == |x.blocks|
    ensures Listable(x1, b) == Listable(x, b)
  {
  }

  lemma ListMore(found: seq<nat>, more: seq<nat>, x: State, x1: State, blk: nat)
    requires ListsThem(found, x, blk) && x1.size == x.size && |x1.blocks| == |x.blocks|
    requires forall b: nat | b < blk :: BlockAt(x1, b) == BlockAt(x, b)
    requires more == if Listable(x1, blk) && |found| < 2004 then found + [blk] else found
    ensures ListsThem(more, x1, blk + 1)
  {
    hide Listable;
    forall b: nat | b < blk ensures Listable(x1, b) == Listable(x, b) { SameListable(x, x1, b); }
    forall b: nat | b < blk + 1 && Listable(x1, b) ensures b in more || (|more| == 2004 && more[2003] < b) {
      if b < blk {
        if b in found {
          var i :| 0 <= i < |found| && found[i] == b;
          assert more[i] == b;
        }
      } else if |found| < 2004 {
        assert more[|found|] == blk;
      }
    }
  }

  lemma SweepPage(s: State, x: State, p: nat, dead: set<int>, blk: nat)
    requires Sweeping(s, x, p, dead, blk) && blk < |s.blocks| && !s.blocks[blk].Meta?
    ensures Next(x, p, VacuumPage).Some? && Sweeping(s, Next(x, p, VacuumPage).value, p, dead, blk + 1)
  {
    hide Listable, ListsThem, Survivors;
    var v, x1 := ProcOf(x, p), Next(x, p, VacuumPage).value;
    PageCleaned(x, x1, p);
    ListMore(v.found, ProcOf(x1, p).found, x, x1, blk);
    forall b | 1 <= b < blk + 1 ensures Cleaned(s, x1, b, dead) {
      if b < blk {
        assert x1.blocks[b] == x.blocks[b] && Cleaned(s, x, b, dead);
      } else {
        assert x.blocks[b] == s.blocks[b];
      }
    }
  }

  lemma PageCleaned(x: State, x1: State, p: nat)
    requires ProcOf(x, p).Scanning? && ProcOf(x, p).blk < ProcOf(x, p).npages && x1 == AfterVacuumPage(x, p)
    requires ProcOf(x, p).blk < |x.blocks| && !x.blocks[ProcOf(x, p).blk].Meta?
    ensures var v := ProcOf(x, p);
            && |x1.blocks| == |x.blocks| && Cleaned(x, x1, v.blk, v.dead)
            && (forall b: nat | b < |x.blocks| && b != v.blk :: x1.blocks[b] == x.blocks[b])
            && ProcOf(x1, p) == v.(blk := v.blk + 1, found := ProcOf(x1, p).found)
            && ProcOf(x1, p).found == (if Listable(x1, v.blk) && |v.found| < 2004 then v.found + [v.blk] else v.found)
            && x1.size == x.size && x1.meta == x.meta && x1.free == x.free && x1.owner == x.owner
  {
    hide Survivors;
    var v := ProcOf(x, p);
    if x.blocks[v.blk].Data? { AllSurvive(x.blocks[v.blk].tuples, q => q in v.dead); }
  }

  lemma SweepEnds(s: State, x: State, p: nat, dead: set<int>)
    requires Sweeping(s, x, p, dead, |s.blocks|)
    ensures Next(x, p, WriteList).Some? && VacuumedAlone(s, Next(x, p, WriteList).value, p, dead)
  {
    hide Listable, Survivors;
    var x1 := Next(x, p, WriteList).value;
    var found := ProcOf(x, p).found;
    assert x1.meta.blocks[..x1.meta.nEnd] == found;
    forall b: nat ensures Listable(x1, b) == Listable(x, b) { SameListable(x, x1, b); }
    forall b | 1 <= b < |s.blocks| ensures Cleaned(s, x1, b, dead) { assert Cleaned(s, x, b, dead); }
  }

  function Pages(p: nat, n: nat): seq<(nat, Action)> { if n == 0 then [] else Pages(p, n - 1) + [(p, VacuumPage)] }

  lemma {:induction false} SweepRun(s: State, p: nat, dead: set<int>, n: nat)
    requires Sweeping(s, s, p, dead, 1) && 1 + n <= |s.blocks| && forall b | 1 <= b < |s.blocks| :: !s.blocks[b].Meta?
    ensures Run(s, Pages(p, n)).Some? && Sweeping(s, Run(s, Pages(p, n)).value, p, dead, 1 + n)
    decreases n
  {
    hide Sweeping, Next;
    if n > 0 {
      SweepRun(s, p, dead, n - 1);
      var steps := Pages(p, n);
      assert steps[..|steps| - 1] == Pages(p, n - 1);
      SweepPage(s, Run(s, Pages(p, n - 1)).value, p, dead, n);
    }
  }

  /** A VACUUM that runs alone visits every block once and then writes the list; it can do nothing else, and
      the list it writes is the increasing list of the blocks with tuples and room, cut at 2004. */
  lemma VacuumLists(s: State, p: nat, dead: set<int>)
    requires Inv(s) && s.owner == None && ProcOf(s, p).Idle?
    ensures var s1 := SetProc(s, p, Scanning(dead, 1, |s.blocks|, [], |s.log|));
            var steps := Pages(p, |s.blocks| - 1) + [(p, WriteList)];
            && Next(s, p, StartVacuum(dead)) == Some(s1) && Run(s1, steps).Some?
            && VacuumedAlone(s, Run(s1, steps).value, p, dead)
  {
    hide Sweeping, VacuumedAlone;
    var s1 := SetProc(s, p, Scanning(dead, 1, |s.blocks|, [], |s.log|));
    SweepStarts(s, s1, p, dead);
    SweepRun(s1, p, dead, |s.blocks| - 1);
    var pages := Pages(p, |s.blocks| - 1);
    var steps := pages + [(p, WriteList)];
    assert steps[..|steps| - 1] == pages;
    SweepEnds(s1, Run(s1, pages).value, p, dead);
    SameResult(s, s1, Run(s1, steps).value, p, dead);
  }

  lemma SweepStarts(s: State, s1: State, p: nat, dead: set<int>)
    requires Inv(s) && s.owner == None && s1 == SetProc(s, p, Scanning(dead, 1, |s.blocks|, [], |s.log|))
    ensures |s.blocks| > 0 && Sweeping(s1, s1, p, dead, 1) && forall b | 1 <= b < |s.blocks| :: !s.blocks[b].Meta?
  {
    hide Conserved, ProcOk;
  }

  lemma SameResult(s: State, s1: State, x: State, p: nat, dead: set<int>)
    requires VacuumedAlone(s1, x, p, dead) && s1.blocks == s.blocks && s1.free == s.free
    ensures VacuumedAlone(s, x, p, dead)
  {
    hide ListsThem, Survivors;
    forall b | 1 <= b < |s.blocks| ensures Cleaned(s, x, b, dead) { assert Cleaned(s1, x, b, dead); }
  }

  // ----- what a cleanup finds -----

  /** Of the blocks below n, exactly the unused ones have been added to the free space map. */
  ghost predicate Collecting(s: State, x: State, p: nat, n: nat) {
    && ProcOf(x, p) == Cleaning(n, |s.blocks|) && 1 <= n <= |s.blocks| && x.blocks == s.blocks
    && x == SetProc(s.(free := x.free), p, ProcOf(x, p))
    && forall b :: b in x.free <==> b in s.free || (1 <= b < n && Unused(s, b))
  }

  function Visits(p: nat, n: nat): seq<(nat, Action)> { if n == 0 then [] else Visits(p, n - 1) + [(p, CleanupPage)] }

  lemma {:induction false} CollectRun(s: State, p: nat, n: nat)
    requires Collecting(s, s, p, 1) && 1 + n <= |s.blocks|
    ensures Run(s, Visits(p, n)).Some? && Collecting(s, Run(s, Visits(p, n)).value, p, 1 + n)
    decreases n
  {
    hide Next, Collecting;
    if n > 0 {
      CollectRun(s, p, n - 1);
      var steps := Visits(p, n);
      assert steps[..|steps| - 1] == Visits(p, n - 1);
      CollectPage(s, Run(s, Visits(p, n - 1)).value, p, n);
    }
  }

  lemma CollectPage(s: State, x: State, p: nat, n: nat)
    requires Collecting(s, x, p, n) && n < |s.blocks|
    ensures Next(x, p, CleanupPage).Some? && Collecting(s, Next(x, p, CleanupPage).value, p, n + 1)
  {
  }

  /** A cleanup alone adds exactly the blocks that are new or deleted to the free space map, and changes
      nothing else. */
  lemma CleanupFinds(s: State, p: nat)
    requires Inv(s) && ProcOf(s, p).Idle?
    ensures var s1, steps := SetProc(s, p, Cleaning(1, |s.blocks|)), Visits(p, |s.blocks| - 1) + [(p, EndCleanup)];
            && Next(s, p, StartCleanup) == Some(s1) && Run(s1, steps).Some?
            && var x := Run(s1, steps).value;
               && x == SetProc(s.(free := x.free), p, Idle)
               && forall b :: b in x.free <==> b in s.free || (b != 0 && Unused(s, b))
  {
    hide Next;
    var s1 := SetProc(s, p, Cleaning(1, |s.blocks|));
    MetaBounds(s);
    CollectRun(s1, p, |s.blocks| - 1);
    var visits := Visits(p, |s.blocks| - 1);
    var steps := visits + [(p, EndCleanup)];
    assert steps[..|steps| - 1] == visits;
    CollectEnds(s, s1, Run(s1, visits).value, p);
  }

  lemma CollectEnds(s: State, s1: State, x: State, p: nat)
    requires s1 == SetProc(s, p, Cleaning(1, |s.blocks|)) && Collecting(s1, x, p, |s.blocks|)
    ensures Next(s, p, StartCleanup) == Some(s1) || !ProcOf(s, p).Idle?
    ensures Next(x, p, EndCleanup).Some? && var y := Next(x, p, EndCleanup).value;
            && y == SetProc(s.(free := y.free), p, Idle)
            && forall b :: b in y.free <==> b in s.free || (b != 0 && Unused(s, b))
  {
    assert s.procs[p := Cleaning(1, |s.blocks|)][p := ProcOf(x, p)][p := Idle] == s.procs[p := Idle];
  }
}
