/** The language of `query_int`: a grammar, the trees it describes, and the postfix
    specification of makepol, proved to accept exactly the grammar's sentences. */
module QueryGrammar {
  import opened QueryLexer

  const STACKDEPTH := 16

  /** An item of a compiled query before its back link is known. */
  datatype Node = VAL(v: int) | OPR(c: char)

  /** A query as a tree. */
  datatype Tree = Leaf(v: int) | Neg(t: Tree) | Bin(conj: bool, l: Tree, r: Tree)

  function Sign(conj: bool): char { if conj then '&' else '|' }

  function Size(t: Tree): (n: nat)
    ensures n > 0
  {
    match t
    case Leaf(_) => 1
    case Neg(s) => Size(s) + 1
    case Bin(_, l, r) => Size(l) + Size(r) + 1
  }

  function Post(t: Tree): (p: seq<Node>)
    ensures |p| == Size(t)
  {
    match t
    case Leaf(v) => [VAL(v)]
    case Neg(s) => Post(s) + [OPR('!')]
    case Bin(conj, l, r) => Post(l) + Post(r) + [OPR(Sign(conj))]
  }

  // ----- the grammar: ! binds tighter than &, & tighter than |, both associate to the left -----

  datatype OrExpr = Term(a: AndExpr) | Alt(o: OrExpr, a: AndExpr)
  datatype AndExpr = Factor(u: Unary) | Conj(a: AndExpr, u: Unary)
  datatype Unary = Num(v: int) | Not(u: Unary) | Paren(o: OrExpr)

  function OrTokens(o: OrExpr): (ts: seq<Token>)
    ensures |ts| > 0
  {
    match o
    case Term(a) => AndTokens(a)
    case Alt(p, a) => OrTokens(p) + [Opr('|')] + AndTokens(a)
  }

  function AndTokens(a: AndExpr): (ts: seq<Token>)
    ensures |ts| > 0
  {
    match a
    case Factor(u) => UnaryTokens(u)
    case Conj(b, u) => AndTokens(b) + [Opr('&')] + UnaryTokens(u)
  }

  function UnaryTokens(u: Unary): (ts: seq<Token>)
    ensures |ts| > 0
  {
    match u
    case Num(v) => [Val(v)]
    case Not(w) => [Opr('!')] + UnaryTokens(w)
    case Paren(o) => [Open] + OrTokens(o) + [Close]
  }

  function OrTree(o: OrExpr): Tree {
    match o
    case Term(a) => AndTree(a)
    case Alt(p, a) => Bin(false, OrTree(p), AndTree(a))
  }

  function AndTree(a: AndExpr): Tree {
    match a
    case Factor(u) => UnaryTree(u)
    case Conj(b, u) => Bin(true, AndTree(b), UnaryTree(u))
  }

  function UnaryTree(u: Unary): Tree {
    match u
    case Num(v) => Leaf(v)
    case Not(w) => Neg(UnaryTree(w))
    case Paren(o) => OrTree(o)
  }

  // ----- how high one level's stack of pending operators grows -----

  function Max(a: nat, b: nat): nat { if a < b then b else a }

  /** Highest operator stack of any makepol level while `o` is read. */
  function OrPeak(o: OrExpr): nat {
    match o
    case Term(a) => AndPeak(a, 0)
    case Alt(p, a) => Max(Max(OrPeak(p), 1), AndPeak(a, 1))
  }

  function AndPeak(a: AndExpr, base: nat): nat {
    match a
    case Factor(u) => UnaryPeak(u, base)
    case Conj(b, u) => Max(AndPeak(b, base), UnaryPeak(u, base + 1))
  }

  function UnaryPeak(u: Unary, base: nat): nat {
    match u
    case Num(_) => base
    case Not(w) => UnaryPeak(w, base + 1)
    case Paren(o) => Max(base, OrPeak(o))
  }

  // ----- makepol -----

  datatype Outcome = Ok(out: seq<Node>, rest: seq<Token>) | SyntaxError | TooComplex

  function Emit(out: seq<Node>, r: Outcome): Outcome {
    if r.Ok? then Ok(out + r.out, r.rest) else r
  }

  predicate Binds(c: char) { c == '&' || c == '!' }

  /** The operators popped once an operand is complete, and the stack they leave. */
  function PopBinding(stack: seq<char>): (r: (seq<Node>, seq<char>))
    ensures |r.1| <= |stack|
  {
    if |stack| > 0 && Binds(stack[|stack| - 1]) then
      var (o, s) := PopBinding(stack[..|stack| - 1]);
      ([OPR(stack[|stack| - 1])] + o, s)
    else ([], stack)
  }

  function PopAll(stack: seq<char>): seq<Node> {
    if |stack| == 0 then [] else [OPR(stack[|stack| - 1])] + PopAll(stack[..|stack| - 1])
  }

  /** What one level of makepol emits from here on, with `stack` pending, and what it leaves unread. */
  function MakePol(ts: seq<Token>, stack: seq<char>): (r: Outcome)
    ensures r.Ok? ==> |r.rest| < |ts|
    decreases |ts|
  {
    if |ts| == 0 then SyntaxError else
    match ts[0]
    case Val(v) =>
      var (o, s) := PopBinding(stack);
      Emit([VAL(v)] + o, MakePol(ts[1..], s))
    case Opr(c) =>
      if |stack| > 0 && c == '|' then Emit([OPR('|')], MakePol(ts[1..], stack))
      else if |stack| == STACKDEPTH then TooComplex
      else MakePol(ts[1..], stack + [c])
    case Open =>
      var inner := MakePol(ts[1..], []);
      if !inner.Ok? then inner else
      var (o, s) := PopBinding(stack);
      Emit(inner.out + o, MakePol(inner.rest, s))
    case Close => Ok(PopAll(stack), ts[1..])
    case End => Ok(PopAll(stack), ts[1..])
    case Err => SyntaxError
  }

  // ----- makepol compiles every sentence of the grammar -----

  lemma EmitEmit(a: seq<Node>, b: seq<Node>, r: Outcome)
    ensures Emit(a, Emit(b, r)) == Emit(a + b, r)
  {
    if r.Ok? { assert a + (b + r.out) == (a + b) + r.out; }
  }

  /** The stack while a completed alternative waits for its right operand. */
  function OrStack(o: OrExpr): seq<char> { if o.Term? then [] else ['|'] }

  /** What has been emitted of `o` while the last | is still pending. */
  function OrEmitted(o: OrExpr): seq<Node> {
    match o
    case Term(a) => Post(AndTree(a))
    case Alt(p, a) => Post(OrTree(p)) + Post(AndTree(a))
  }

  lemma {:induction false} UnaryRun(u: Unary, stack: seq<char>, rest: seq<Token>)
    requires |stack| <= STACKDEPTH
    ensures MakePol(UnaryTokens(u) + rest, stack) ==
            if UnaryPeak(u, |stack|) <= STACKDEPTH
            then var (o, s) := PopBinding(stack); Emit(Post(UnaryTree(u)) + o, MakePol(rest, s))
            else TooComplex
    decreases u
  {
    var ts := UnaryTokens(u) + rest;
    var (o, s) := PopBinding(stack);
    match u
    case Num(v) =>
      assert ts[1..] == rest;
    case Not(w) =>
      assert ts[0] == Opr('!') && ts[1..] == UnaryTokens(w) + rest;
      var up := stack + ['!'];
      if |stack| < STACKDEPTH {
        UnaryRun(w, up, rest);
        assert up[..|up| - 1] == stack;
        assert Post(UnaryTree(w)) + ([OPR('!')] + o) == Post(UnaryTree(u)) + o;
      } else {
        PeakAtLeastBase(w, |stack| + 1);
      }
    case Paren(p) =>
      assert ts[0] == Open && ts[1..] == OrTokens(p) + ([Close] + rest);
      OrRun(p, [Close] + rest);
      assert ([Close] + rest)[1..] == rest;
  }

  lemma {:induction false} PeakAtLeastBase(u: Unary, base: nat)
    ensures UnaryPeak(u, base) >= base
  {
    if u.Not? { PeakAtLeastBase(u.u, base + 1); }
  }

  lemma {:induction false} AndRun(a: AndExpr, base: seq<char>, rest: seq<Token>)
    requires base == [] || base == ['|']
    ensures MakePol(AndTokens(a) + rest, base) ==
            if AndPeak(a, |base|) <= STACKDEPTH then Emit(Post(AndTree(a)), MakePol(rest, base)) else TooComplex
    decreases a
  {
    match a
    case Factor(u) =>
      UnaryRun(u, base, rest);
      assert Post(UnaryTree(u)) + [] == Post(UnaryTree(u));
    case Conj(b, u) =>
      var tail := [Opr('&')] + (UnaryTokens(u) + rest);
      assert AndTokens(a) + rest == AndTokens(b) + tail;
      AndRun(b, base, tail);
      assert tail[1..] == UnaryTokens(u) + rest;
      var up := base + ['&'];
      UnaryRun(u, up, rest);
      assert up[..|up| - 1] == base;
      assert PopBinding(up) == ([OPR('&')] + [], base);
      if AndPeak(a, |base|) <= STACKDEPTH {
        EmitEmit(Post(AndTree(b)), Post(UnaryTree(u)) + [OPR('&')], MakePol(rest, base));
        assert Post(AndTree(b)) + (Post(UnaryTree(u)) + [OPR('&')]) == Post(AndTree(a));
        assert [OPR('&')] + [] == [OPR('&')];
      }
  }

  lemma {:induction false} OrRunPending(o: OrExpr, rest: seq<Token>)
    ensures MakePol(OrTokens(o) + rest, []) ==
            if OrPeak(o) <= STACKDEPTH then Emit(OrEmitted(o), MakePol(rest, OrStack(o))) else TooComplex
    decreases o, 0
  {
    match o
    case Term(a) =>
      AndRun(a, [], rest);
    case Alt(p, a) =>
      var tail := [Opr('|')] + (AndTokens(a) + rest);
      assert OrTokens(o) + rest == OrTokens(p) + tail;
      OrRunPending(p, tail);
      assert tail[1..] == AndTokens(a) + rest;
      AndRun(a, ['|'], rest);
      assert [] + ['|'] == ['|'];
      if OrPeak(o) <= STACKDEPTH {
        var r := MakePol(rest, ['|']);
        if p.Term? {
          EmitEmit(OrEmitted(p), Post(AndTree(a)), r);
        } else {
          EmitEmit([OPR('|')], Post(AndTree(a)), r);
          EmitEmit(OrEmitted(p), [OPR('|')] + Post(AndTree(a)), r);
          assert OrEmitted(p) + ([OPR('|')] + Post(AndTree(a))) == OrEmitted(o);
        }
      }
  }

  /** One whole level: the grammar's tree in postfix, up to the parenthesis or the end that closes it. */
  lemma {:induction false} OrRun(o: OrExpr, rest: seq<Token>)
    requires |rest| > 0 && (rest[0] == Close || rest[0] == End)
    ensures MakePol(OrTokens(o) + rest, []) ==
            if OrPeak(o) <= STACKDEPTH then Ok(Post(OrTree(o)), rest[1..]) else TooComplex
    decreases o, 1
  {
    OrRunPending(o, rest);
    if o.Alt? {
      assert ['|'][..0] == [];
      assert PopAll(['|']) == [OPR('|')];
    }
  }

  // ----- the tokenizer lets nothing but sentences of the grammar through -----

  /** Operands and operators alternate and every parenthesis is matched, up to the End or
      the error that the stream stops at. */
  predicate Lexed(ts: seq<Token>, operand: bool, count: nat)
    decreases |ts|
  {
    |ts| > 0 &&
    if ts[0] == Err then |ts| == 1
    else if operand then
      match ts[0]
      case Val(_) => Lexed(ts[1..], false, count)
      case Opr(c) => c == '!' && Lexed(ts[1..], true, count)
      case Open => Lexed(ts[1..], true, count + 1)
      case _ => false
    else
      match ts[0]
      case Opr(c) => (c == '&' || c == '|') && Lexed(ts[1..], true, count)
      case Close => count > 0 && Lexed(ts[1..], false, count - 1)
      case End => count == 0 && |ts| == 1
      case _ => false
  }

  predicate Errs(ts: seq<Token>) { |ts| > 0 && ts[|ts| - 1] == Err }

  predicate WellLexed(ts: seq<Token>, operand: bool, count: nat) { Lexed(ts, operand, count) && !Errs(ts) }

  lemma {:induction false} StreamIsLexed(s: Lex)
    requires s.count >= 0
    ensures Lexed(Stream(s), s.operand, s.count)
    decreases |s.buf|
  {
    var (t, s') := NextToken(s);
    if t != End && t != Err {
      StreamIsLexed(s');
      assert Stream(s)[1..] == Stream(s');
    }
  }

  /** A level that a later tokenizer error awaits can only end at its closing parenthesis. */
  lemma {:induction false} ErrReachesTop(ts: seq<Token>, operand: bool, count: nat, stack: seq<char>)
    requires Lexed(ts, operand, count) && Errs(ts)
    ensures var r := MakePol(ts, stack);
            r.Ok? ==> count > 0 && Lexed(r.rest, false, count - 1) && Errs(r.rest)
    decreases |ts|
  {
    match ts[0]
    case Val(v) => ErrReachesTop(ts[1..], false, count, PopBinding(stack).1);
    case Opr(c) =>
      ErrReachesTop(ts[1..], true, count, stack);
      ErrReachesTop(ts[1..], true, count, stack + [c]);
    case Open =>
      ErrReachesTop(ts[1..], true, count + 1, []);
      var inner := MakePol(ts[1..], []);
      if inner.Ok? { ErrReachesTop(inner.rest, false, count, PopBinding(stack).1); }
    case _ =>
  }

  lemma {:induction false} DeriveUnary(ts: seq<Token>, count: nat) returns (u: Unary, rest: seq<Token>)
    requires WellLexed(ts, true, count)
    ensures ts == UnaryTokens(u) + rest && WellLexed(rest, false, count)
    decreases |ts|, 0
  {
    match ts[0]
    case Val(v) =>
      u, rest := Num(v), ts[1..];
    case Opr(_) =>
      var w;
      w, rest := DeriveUnary(ts[1..], count);
      u := Not(w);
    case Open =>
      var o, tail := DeriveOr(ts[1..], count + 1);
      u, rest := Paren(o), tail[1..];
      assert ts == [Open] + ts[1..] && tail == [Close] + rest;
  }

  lemma {:induction false} DeriveAndTail(acc: AndExpr, ts: seq<Token>, count: nat)
    returns (a: AndExpr, rest: seq<Token>)
    requires WellLexed(ts, false, count)
    ensures AndTokens(acc) + ts == AndTokens(a) + rest
    ensures WellLexed(rest, false, count) && rest[0] != Opr('&') && |rest| <= |ts|
    decreases |ts|, 1
  {
    if ts[0] == Opr('&') {
      var u, tail := DeriveUnary(ts[1..], count);
      a, rest := DeriveAndTail(Conj(acc, u), tail, count);
      assert AndTokens(acc) + ts == AndTokens(Conj(acc, u)) + tail;
    } else {
      a, rest := acc, ts;
    }
  }

  lemma {:induction false} DeriveOrTail(acc: OrExpr, ts: seq<Token>, count: nat) returns (o: OrExpr, rest: seq<Token>)
    requires WellLexed(ts, false, count) && ts[0] != Opr('&')
    ensures OrTokens(acc) + ts == OrTokens(o) + rest
    ensures WellLexed(rest, false, count) && (rest[0] == Close || rest[0] == End)
    decreases |ts|, 2
  {
    if ts[0] == Opr('|') {
      var u, tail := DeriveUnary(ts[1..], count);
      var a, tail' := DeriveAndTail(Factor(u), tail, count);
      o, rest := DeriveOrTail(Alt(acc, a), tail', count);
      assert ts == [Opr('|')] + (AndTokens(a) + tail');
      assert OrTokens(acc) + ts == OrTokens(Alt(acc, a)) + tail';
    } else {
      o, rest := acc, ts;
    }
  }

  lemma {:induction false} DeriveOr(ts: seq<Token>, count: nat) returns (o: OrExpr, rest: seq<Token>)
    requires WellLexed(ts, true, count)
    ensures ts == OrTokens(o) + rest
    ensures WellLexed(rest, false, count) && (rest[0] == Close || rest[0] == End)
    decreases |ts|, 3
  {
    var u, tail := DeriveUnary(ts, count);
    var a, tail' := DeriveAndTail(Factor(u), tail, count);
    o, rest := DeriveOrTail(Term(a), tail', count);
  }

  // ----- main results -----

  /** `text` spells the expression `o`. */
  predicate Spells(text: string, o: OrExpr) { Stream(Start(text)) == OrTokens(o) + [End] }

  function Compile(text: string): Outcome { MakePol(Stream(Start(text)), []) }

  /** makepol succeeds on exactly the texts that spell an expression needing at most 16
      pending operators on every level, and then emits that expression's tree in postfix. */
  lemma CompileIff(text: string)
    ensures Compile(text).Ok? <==> exists o :: Spells(text, o) && OrPeak(o) <= STACKDEPTH
    ensures forall o | Spells(text, o) && OrPeak(o) <= STACKDEPTH :: Compile(text) == Ok(Post(OrTree(o)), [])
    ensures forall o | Spells(text, o) && OrPeak(o) > STACKDEPTH :: Compile(text) == TooComplex
  {
    var ts := Stream(Start(text));
    forall o | Spells(text, o)
      ensures Compile(text) == if OrPeak(o) <= STACKDEPTH then Ok(Post(OrTree(o)), []) else TooComplex
    {
      OrRun(o, [End]);
    }
    StreamIsLexed(Start(text));
    if Errs(ts) {
      ErrReachesTop(ts, true, 0, []);
      forall o ensures !Spells(text, o) {
        assert (OrTokens(o) + [End])[|OrTokens(o)|] == End;
      }
    } else {
      var o, rest := DeriveOr(ts, 0);
      assert rest == [End];
      assert Spells(text, o);
    }
  }
}
