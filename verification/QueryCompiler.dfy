/** The compiler from `query_int` text to a back-linked item array, in the source's own
    imperative form, proved against the grammar. */
module QueryCompiler {
  import opened QueryLexer
  import opened QueryGrammar
  import opened QueryEval

  const QUERYTYPEMAXITEMS := 134217726 // (MaxAllocSize - HDRSIZEQT) / sizeof(ITEM)

  datatype Status = Done | Syntax | Complex

  datatype Mode = WaitOperand | WaitEndOperand | WaitOperator

  lemma StreamStep(s: Lex)
    ensures var (t, s') := NextToken(s);
            && Stream(s) == (if t == End || t == Err then [t] else [t] + Stream(s'))
            && (t.Val? || t.Opr? ==> s'.count == s.count)
            && (t == Open ==> s'.count == s.count + 1)
            && (t == Close ==> s'.count == s.count - 1 >= 0)
            && (t == End ==> s.count == 0 && |s'.buf| <= |s.buf| && s'.count == 0)
  {
  }

  /** An operand, or a parenthesised group, has been emitted as `out`: what makepol still owes. */
  lemma StepOperand(done: seq<Node>, out: seq<Node>, ts: seq<Token>, rest: seq<Token>, stack: seq<char>)
    returns (done': seq<Node>, stack': seq<char>)
    requires |ts| > 0
    requires (ts[0].Val? && out == [VAL(ts[0].v)] && rest == ts[1..]) ||
             (ts[0].Open? && MakePol(ts[1..], []) == Ok(out, rest))
    ensures done' == done + (out + PopBinding(stack).0) && stack' == PopBinding(stack).1
    ensures Emit(done, MakePol(ts, stack)) == Emit(done', MakePol(rest, stack'))
  {
    var (o, s) := PopBinding(stack);
    done', stack' := done + (out + o), s;
    EmitEmit(done, out + o, MakePol(rest, s));
  }

  /** The steps that emit nothing: pushing an operator, an inner error, and the ends of a level. */
  lemma StepOther(ts: seq<Token>, stack: seq<char>)
    requires |ts| > 0
    ensures ts[0].Opr? && !(|stack| > 0 && ts[0].c == '|') ==>
              MakePol(ts, stack) == if |stack| == STACKDEPTH then TooComplex else MakePol(ts[1..], stack + [ts[0].c])
    ensures ts[0] == Open && !MakePol(ts[1..], []).Ok? ==> MakePol(ts, stack) == MakePol(ts[1..], [])
    ensures ts[0] == Close || ts[0] == End ==> MakePol(ts, stack) == Ok(PopAll(stack), ts[1..])
    ensures ts[0] == Err ==> MakePol(ts, stack) == SyntaxError
  {
  }

  lemma StepAlternative(done: seq<Node>, ts: seq<Token>, stack: seq<char>) returns (done': seq<Node>)
    requires |ts| > 0 && ts[0] == Opr('|') && |stack| > 0
    ensures done' == done + [OPR('|')]
    ensures Emit(done, MakePol(ts, stack)) == Emit(done', MakePol(ts[1..], stack))
  {
    done' := done + [OPR('|')];
    EmitEmit(done, [OPR('|')], MakePol(ts[1..], stack));
  }

  lemma Assoc<T>(a: seq<T>, b: seq<T>, c: seq<T>, d: seq<T>)
    ensures a + b + c + d == a + (b + (c + d))
    ensures a + b + c == a + (b + c)
  {
  }

  class WorkState {
    var buf: string    // the text not yet read
    var state: Mode
    var count: int     // open parentheses
    var str: seq<Node> // the emitted items; the last one is the head of the source's list
    var num: int

    constructor (text: string)
      ensures Position() == Start(text) && str == [] && num == 0 && state == WaitOperand
    {
      buf, state, count, str, num := text, WaitOperand, 0, [], 0;
    }

    function Position(): Lex
      reads this
    {
      Lex(buf, state == WaitOperand, count)
    }

    predicate Valid()
      reads this
    {
      state != WaitEndOperand && count >= 0 && num == |str|
    }

    method GetToken() returns (t: Token)
      requires state != WaitEndOperand
      modifies this`buf, this`state, this`count
      ensures t == NextToken(old(Position())).0
      ensures t != Err ==> Position() == NextToken(old(Position())).1 && state != WaitEndOperand
    {
      var nnn := "";
      ghost var from := Position();
      ghost var b := SkipSpaces(buf); // where the number starts, once it is being collected
      while true
        invariant count == from.count && |nnn| <= BUFLEN
        invariant state != WaitEndOperand ==>
                    |nnn| == 0 && SkipSpaces(buf) == b && state == (if from.operand then WaitOperand else WaitOperator)
        invariant state == WaitEndOperand ==>
                    from.operand && |nnn| > 0 && |b| > 0 && b == nnn + buf && (Digit(b[0]) || b[0] == '-')
        invariant state == WaitEndOperand ==> 1 + DigitRun(b[1..]) == |nnn| + DigitRun(buf)
        decreases |buf|
      {
        if |nnn| >= BUFLEN { return Err; }
        var c := Peek(buf);
        match state {
          case WaitOperand =>
            nnn := "";
            if Digit(c) || c == '-' {
              state := WaitEndOperand;
              nnn := [c];
              assert buf == [c] + buf[1..];
            } else if c == '!' {
              buf := buf[1..];
              return Opr('!');
            } else if c == '(' {
              count := count + 1;
              buf := buf[1..];
              return Open;
            } else if c != ' ' {
              return Err;
            }
          case WaitEndOperand =>
            if Digit(c) {
              nnn := nnn + [c];
              assert b == nnn + buf[1..];
            } else {
              var lval := Strtol(nnn);
              assert b[..|nnn|] == nnn && b[|nnn|..] == buf;
              if !InInt32(lval) { return Err; }
              state := WaitOperator;
              return if count != 0 && c == '\0' then Err else Val(lval);
            }
          case WaitOperator =>
            if c == '&' || c == '|' {
              state := WaitOperand;
              buf := buf[1..];
              return Opr(c);
            } else if c == ')' {
              buf := buf[1..];
              count := count - 1;
              return if count < 0 then Err else Close;
            } else if c == '\0' {
              return if count != 0 then Err else End;
            } else if c != ' ' {
              return Err;
            }
        }
        buf := buf[1..];
      }
    }

    method PushQuery(n: Node)
      modifies this`str, this`num
      ensures str == old(str) + [n] && num == old(num) + 1
    {
      str := str + [n];
      num := num + 1;
    }

    /** The loop `while (lenstack && (top is & or !))`. */
    method PopBindingOps(stack: array<char>, lenstack: nat) returns (len: nat)
      requires lenstack <= stack.Length
      modifies this`str, this`num
      ensures len <= lenstack && num - |str| == old(num - |str|)
      ensures stack[..len] == PopBinding(stack[..lenstack]).1
      ensures str == old(str) + PopBinding(stack[..lenstack]).0
    {
      len := lenstack;
      while len > 0 && Binds(stack[len - 1])
        invariant len <= lenstack && num - |str| == old(num - |str|)
        invariant str + PopBinding(stack[..len]).0 == old(str) + PopBinding(stack[..lenstack]).0
        invariant PopBinding(stack[..len]).1 == PopBinding(stack[..lenstack]).1
      {
        len := len - 1;
        assert stack[..len + 1][..len] == stack[..len];
        PushQuery(OPR(stack[len]));
      }
    }

    method PopAllOps(stack: array<char>, lenstack: nat)
      requires lenstack <= stack.Length
      modifies this`str, this`num
      ensures num - |str| == old(num - |str|)
      ensures str == old(str) + PopAll(stack[..lenstack])
    {
      var len: nat := lenstack;
      while len > 0
        invariant len <= lenstack && num - |str| == old(num - |str|)
        invariant str + PopAll(stack[..len]) == old(str) + PopAll(stack[..lenstack])
      {
        len := len - 1;
        assert stack[..len + 1][..len] == stack[..len];
        PushQuery(OPR(stack[len]));
      }
    }

    /** One level of makepol: emits what the specification emits and stops where it stops. */
    method MakePolish() returns (r: Status)
      requires Valid()
      modifies this
      ensures var s := MakePol(Stream(old(Position())), []);
              match r
              case Done => s.Ok? && str == old(str) + s.out && Valid() && |buf| <= |old(buf)| &&
                           if old(count) == 0 then s.rest == []
                           else s.rest == Stream(Position()) && count == old(count) - 1 && |buf| < |old(buf)|
              case Syntax => s.SyntaxError?
              case Complex => s.TooComplex?
      decreases |buf|
    {
      hide MakePol, Stream, PopBinding, PopAll, NextToken;
      var stack := new char[STACKDEPTH](_ => ' ');
      var lenstack: nat := 0;
      ghost var whole := MakePol(Stream(Position()), []);
      ghost var done, stk := [], [];
      while true
        invariant Valid() && count == old(count) && |buf| <= |old(buf)|
        invariant lenstack <= STACKDEPTH == stack.Length && fresh(stack) && stack[..lenstack] == stk
        invariant str == old(str) + done
        invariant whole == Emit(done, MakePol(Stream(Position()), stk))
        decreases |buf|
      {
        ghost var ts := Stream(Position());
        StreamStep(Position());
        StepOther(ts, stk);
        var token := GetToken();
        match token {
          case Val(v) =>
            PushQuery(VAL(v));
            lenstack := PopBindingOps(stack, lenstack);
            Assoc(old(str), done, [VAL(v)], PopBinding(stk).0);
            done, stk := StepOperand(done, [VAL(v)], ts, ts[1..], stk);
          case Opr(c) =>
            if lenstack > 0 && c == '|' {
              PushQuery(OPR(c));
              Assoc(old(str), done, [OPR(c)], []);
              done := StepAlternative(done, ts, stk);
            } else {
              if lenstack == STACKDEPTH { return Complex; }
              stack[lenstack] := c;
              lenstack := lenstack + 1;
              stk := stk + [c];
              assert stack[..lenstack] == stk;
            }
          case Open =>
            r := MakePolish();
            if r != Done { return r; }
            lenstack := PopBindingOps(stack, lenstack);
            Assoc(old(str), done, MakePol(ts[1..], []).out, PopBinding(stk).0);
            done, stk := StepOperand(done, MakePol(ts[1..], []).out, ts, MakePol(ts[1..], []).rest, stk);
          case Close =>
            PopAllOps(stack, lenstack);
            Assoc(old(str), done, PopAll(stk), []);
            return Done;
          case End =>
            PopAllOps(stack, lenstack);
            Assoc(old(str), done, PopAll(stk), []);
            return Done;
          case Err =>
            return Syntax;
        }
      }
    }
  }

  datatype Compiled = Items(items: seq<Item>) | SyntaxErr | StackErr | EmptyErr | TooManyErr

  // ----- back links -----

  function Nodes(items: seq<Item>): (ns: seq<Node>)
    ensures |ns| == |items|
  {
    seq(|items|, i requires 0 <= i < |items| => items[i].node)
  }

  /** `ns` has the postfix of `t` from position `at` on. */
  predicate Spelled(ns: seq<Node>, at: nat, t: Tree)
    decreases t
  {
    at + Size(t) <= |ns| &&
    match t
    case Leaf(v) => ns[at] == VAL(v)
    case Neg(u) => Spelled(ns, at, u) && ns[at + Size(u)] == OPR('!')
    case Bin(conj, l, r) =>
      Spelled(ns, at, l) && Spelled(ns, at + Size(l), r) && ns[at + Size(l) + Size(r)] == OPR(Sign(conj))
  }

  lemma Regroup<T>(pre: seq<T>, a: seq<T>, b: seq<T>, x: T, suf: seq<T>)
    ensures pre + (a + b + [x]) + suf == pre + a + (b + [x] + suf)
    ensures pre + (a + b + [x]) + suf == (pre + a) + b + ([x] + suf)
    ensures (pre + (a + b + [x]) + suf)[|pre| + |a| + |b|] == x
  {
  }

  lemma {:induction false} PostSpells(ns: seq<Node>, pre: seq<Node>, t: Tree, suf: seq<Node>)
    requires ns == pre + Post(t) + suf
    ensures Spelled(ns, |pre|, t)
    decreases t
  {
    match t
    case Leaf(v) =>
    case Neg(u) =>
      Regroup(pre, Post(u), [], OPR('!'), suf);
      assert Post(u) + [] == Post(u);
      PostSpells(ns, pre, u, [OPR('!')] + suf);
    case Bin(conj, l, r) =>
      Regroup(pre, Post(l), Post(r), OPR(Sign(conj)), suf);
      PostSpells(ns, pre, l, Post(r) + [OPR(Sign(conj))] + suf);
      PostSpells(ns, pre + Post(l), r, [OPR(Sign(conj))] + suf);
  }

  lemma SpelledRoot(ns: seq<Node>, at: nat, t: Tree)
    requires Spelled(ns, at, t)
    ensures var root := ns[at + Size(t) - 1];
            match t
            case Leaf(v) => root == VAL(v)
            case Neg(u) => root == OPR('!') && Spelled(ns, at, u)
            case Bin(conj, l, r) => root == OPR(Sign(conj)) && Spelled(ns, at, l) && Spelled(ns, at + Size(l), r)
  {
  }

  /** Once the right and then the left operand are linked, so is the operator above them. */
  lemma HoldsBinary(right: seq<Item>, set_: seq<Item>, left: seq<Item>, at: nat, conj: bool, l: Tree, r: Tree)
    requires at + Size(l) + Size(r) < |right| == |set_| == |left|
    requires Holds(right, at + Size(l), r) && Holds(left, at, l)
    requires set_ == right[at + Size(l) + Size(r) := Item(OPR(Sign(conj)), Int16(-1 - Size(r)))]
    requires forall i | at + Size(l) <= i < |left| :: left[i] == set_[i]
    ensures Holds(left, at, Bin(conj, l, r))
  {
    HoldsFrame(right, at + Size(l), r, left);
  }

  lemma NodesSet(items: seq<Item>, k: nat, left: int)
    requires k < |items|
    ensures Nodes(items[k := items[k].(left := left)]) == Nodes(items)
  {
  }

  lemma NodeAt(items: seq<Item>, k: nat)
    requires k < |items|
    ensures Nodes(items)[k] == items[k].node
  {
  }

  /** findoprnd: links the operators of the subtree that ends at `pos`; the tree's postfix is
      all it needs to find there. */
  method FindOprnd(ptr: array<Item>, pos: nat, ghost t: Tree) returns (pos': int)
    requires pos < ptr.Length && Size(t) <= pos + 1
    requires Spelled(Nodes(ptr[..]), pos + 1 - Size(t), t)
    modifies ptr
    ensures pos' == pos - Size(t)
    ensures Holds(ptr[..], pos + 1 - Size(t), t)
    ensures Nodes(ptr[..]) == old(Nodes(ptr[..]))
    ensures forall i | 0 <= i < ptr.Length && !(pos' < i <= pos) :: ptr[i] == old(ptr[i])
    decreases pos
  {
    hide Nodes, Spelled, Holds, Int16;
    ghost var at := pos + 1 - Size(t);
    ghost var before := ptr[..];
    SpelledRoot(Nodes(before), at, t);
    NodeAt(before, pos);
    match ptr[pos].node
    case VAL(_) =>
      NodesSet(before, pos, 0);
      ptr[pos] := ptr[pos].(left := 0);
      assert ptr[..] == before[pos := before[pos].(left := 0)];
      pos' := pos - 1;
      HoldsLeaf(ptr[..], at, t);
    case OPR(c) =>
      if c == '!' {
        NodesSet(before, pos, -1);
        ptr[pos] := ptr[pos].(left := -1);
        assert ptr[..] == before[pos := before[pos].(left := -1)];
        pos' := FindOprnd(ptr, pos - 1, t.t);
        HoldsNeg(ptr[..], at, t);
      } else {
        var tmp := pos;
        pos' := FindOprnd(ptr, pos - 1, t.r);
        ghost var right := ptr[..];
        NodesSet(right, tmp, Int16(pos' - tmp));
        ptr[tmp] := ptr[tmp].(left := Int16(pos' - tmp));
        ghost var set_ := ptr[..];
        assert set_ == right[tmp := right[tmp].(left := Int16(pos' - tmp))];
        assert right[tmp] == before[tmp];
        pos' := FindOprnd(ptr, pos', t.l);
        HoldsBinary(right, set_, ptr[..], at, t.conj, t.l, t.r);
      }
  }

  lemma HoldsLeaf(items: seq<Item>, at: nat, t: Tree)
    requires t.Leaf? && at < |items| && items[at] == Item(VAL(t.v), 0)
    ensures Holds(items, at, t)
  {
  }

  lemma HoldsNeg(items: seq<Item>, at: nat, t: Tree)
    requires t.Neg? && Holds(items, at, t.t) && at + Size(t) <= |items| && items[at + Size(t) - 1] == Item(OPR('!'), -1)
    ensures Holds(items, at, t)
  {
  }

  /** The tree an accepted text denotes. */
  ghost function TreeOf(text: string): Tree
    requires Compile(text).Ok?
  {
    CompileIff(text);
    var o :| Spells(text, o) && OrPeak(o) <= STACKDEPTH;
    OrTree(o)
  }

  lemma TreeOfPost(text: string)
    requires Compile(text).Ok?
    ensures Compile(text) == Ok(Post(TreeOf(text)), [])
  {
    CompileIff(text);
    var o :| Spells(text, o) && OrPeak(o) <= STACKDEPTH && OrTree(o) == TreeOf(text);
  }

  /** The loop that copies the emitted list, newest first, into the item array from its end. */
  method CopyItems(state: WorkState) returns (ptr: array<Item>)
    requires state.Valid()
    modifies state`str
    ensures fresh(ptr) && Nodes(ptr[..]) == old(state.str)
  {
    var size := state.num;
    ptr := new Item[size](_ => Item(VAL(0), 0));
    var i := size - 1;
    while i >= 0
      invariant -1 <= i < size && |state.str| == i + 1 && state.str == old(state.str)[..i + 1]
      invariant forall k | i < k < size :: ptr[k].node == old(state.str)[k]
    {
      ptr[i] := Item(state.str[|state.str| - 1], 0);
      state.str := state.str[..|state.str| - 1];
      i := i - 1;
    }
  }

  /** bqarr_in: succeeds exactly on the texts that spell an expression within the limits, and then
      returns that expression's postfix with the links findoprnd stores. The error for an empty
      query is never raised: an empty text is a syntax error already. */
  method BqarrIn(text: string) returns (r: Compiled)
    ensures match r
            case Items(items) =>
              Compile(text).Ok? && |items| == Size(TreeOf(text)) <= QUERYTYPEMAXITEMS && Holds(items, 0, TreeOf(text))
            case SyntaxErr => Compile(text).SyntaxError?
            case StackErr => Compile(text).TooComplex?
            case TooManyErr => Compile(text).Ok? && Size(TreeOf(text)) > QUERYTYPEMAXITEMS
            case EmptyErr => false
  {
    hide TreeOf, Post, Spelled, Holds, MakePol, Stream, Compile, Nodes;
    var state := new WorkState(text);
    CompileIsMakePol(text);
    var st := state.MakePolish();
    if st == Syntax { return SyntaxErr; }
    if st == Complex { return StackErr; }
    ghost var t := TreeOf(text);
    ghost var post := Post(t);
    TreeOfPost(text);
    assert state.str == [] + post == post;
    if state.num == 0 { return EmptyErr; }
    if state.num > QUERYTYPEMAXITEMS { return TooManyErr; }
    var size := state.num;
    var ptr := CopyItems(state);
    assert [] + post + [] == post;
    PostSpells(post, [], t, []);
    var pos := FindOprnd(ptr, size - 1, t);
    assert pos == -1; // exactly one root
    r := Items(ptr[..]);
  }

  lemma CompileIsMakePol(text: string)
    ensures Compile(text) == MakePol(Stream(Start(text)), [])
  {
  }

  /** Compiler correctness: whatever expression an accepted text spells, evaluating the compiled
      array equals evaluating the expression's tree, for every check and both treatments of NOT. */
  lemma CompiledQueryMeansItsText(text: string, o: OrExpr, items: seq<Item>, calcnot: bool, chk: Check)
    requires Spells(text, o) && Compile(text).Ok?
    requires |items| == Size(TreeOf(text)) && Holds(items, 0, TreeOf(text))
    requires |items| <= 32768 || LinksFit(OrTree(o))
    ensures Linked(items) && Execute(items, |items| - 1, calcnot, chk) == Eval(OrTree(o), 0, calcnot, chk)
  {
    var t := OrTree(o);
    CompileIff(text);
    TreeOfPost(text);
    PostUnique(t, TreeOf(text));
    if |items| <= 32768 { SmallQueriesFit(t); }
    FittingLinks(items, 0, t);
    ExecuteIsEval(items, 0, |items| - 1, t, calcnot, chk);
  }

  /** A postfix sequence determines its tree. */
  lemma {:induction false} PostUnique(s: Tree, t: Tree)
    requires Post(s) == Post(t)
    ensures s == t
  {
    PostSuffixUnique([], s, [], t);
    assert [] + Post(s) == Post(s) && [] + Post(t) == Post(t);
  }

  lemma {:induction false} PostSuffixUnique(a: seq<Node>, s: Tree, b: seq<Node>, t: Tree)
    requires a + Post(s) == b + Post(t)
    ensures s == t && a == b
    decreases s
  {
    var p := a + Post(s);
    assert p[|p| - 1] == Post(s)[Size(s) - 1] && p[|p| - 1] == Post(t)[Size(t) - 1];
    match s
    case Leaf(v) =>
      assert t == s;
      assert a == p[..|p| - 1] == b;
    case Neg(u) =>
      assert a + Post(u) == p[..|p| - 1] == b + Post(t.t);
      PostSuffixUnique(a, u, b, t.t);
    case Bin(conj, l, r) =>
      assert (a + Post(l)) + Post(r) == p[..|p| - 1] == (b + Post(t.l)) + Post(t.r);
      PostSuffixUnique(a + Post(l), r, b + Post(t.l), t.r);
      PostSuffixUnique(a, l, b, t.l);
  }
}
