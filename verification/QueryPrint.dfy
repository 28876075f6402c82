/** Printing a compiled query as infix text, and what reading that text back gives. */
module QueryPrint {
  import opened QueryLexer
  import opened QueryGrammar
  import opened QueryEval
  import opened QueryCompiler

  /** The text infix() writes for a tree; `first` says that an enclosing parenthesis is already there. */
  function Print(t: Tree, first: bool): string {
    match t
    case Leaf(v) => PrintInt(v)
    case Neg(u) => if u.Leaf? then "!" + Print(u, false) else "!( " + Print(u, true) + " )"
    case Bin(conj, l, r) =>
      var body := Print(l, false) + [' ', Sign(conj), ' '] + Print(r, false);
      if conj || first then body else "( " + body + " )"
  }

  class Infix {
    var curpol: int
    var buf: string

    constructor (at: int, text: string)
      ensures curpol == at && buf == text
    {
      curpol, buf := at, text;
    }

    /** infix: consumes the subtree that ends at `curpol` and appends its text. */
    method Write(items: seq<Item>, first: bool, ghost at: nat, ghost t: Tree)
      requires Holds(items, at, t) && curpol == at + Size(t) - 1
      modifies this
      ensures curpol == at - 1 && buf == old(buf) + Print(t, first)
      decreases t, 1
    {
      hide Holds, Print;
      HoldsRoot(items, at, t);
      match items[curpol].node
      case VAL(v) =>
        PrintStep(t, first);
        buf := buf + PrintInt(v);
        curpol := curpol - 1;
      case OPR(c) =>
        if c == '!' {
          WriteNot(items, first, at, t);
        } else {
          WriteBinary(items, c, first, at, t);
        }
    }

    /** The branch of infix for a negation. */
    method WriteNot(items: seq<Item>, first: bool, ghost at: nat, ghost t: Tree)
      requires Holds(items, at, t) && curpol == at + Size(t) - 1 && t.Neg?
      modifies this
      ensures curpol == at - 1 && buf == old(buf) + Print(t, first)
      decreases t, 0
    {
      hide Holds, Print;
      HoldsRoot(items, at, t);
      PrintStep(t, first);
      ghost var start := buf;
      var isopr := false;
      buf := buf + "!";
      curpol := curpol - 1;
      HoldsRoot(items, at, t.t);
      if items[curpol].node.OPR? {
        isopr := true;
        buf := buf + "( ";
      }
      Write(items, isopr, at, t.t);
      if isopr {
        buf := buf + " )";
        assert start + "!" + "( " == start + "!( ";
        WrapText(start, "!( ", Print(t.t, true), " )");
      } else {
        Assoc(start, "!", Print(t.t, false), "");
      }
    }

    /** The branch of infix for a binary operator; the right operand goes to a buffer of its own first. */
    method WriteBinary(items: seq<Item>, op: char, first: bool, ghost at: nat, ghost t: Tree)
      requires Holds(items, at, t) && curpol == at + Size(t) - 1 && t.Bin? && op == Sign(t.conj)
      modifies this
      ensures curpol == at - 1 && buf == old(buf) + Print(t, first)
      decreases t, 0
    {
      hide Holds, Print;
      HoldsRoot(items, at, t);
      PrintStep(t, first);
      ghost var start := buf;
      curpol := curpol - 1;
      if op == '|' && !first { buf := buf + "( "; }
      ghost var lead := buf;
      var nrm := new Infix(curpol, "");
      nrm.Write(items, false, at + Size(t.l), t.r);
      assert nrm.buf == Print(t.r, false);
      curpol := nrm.curpol;
      Write(items, false, at, t.l);
      buf := buf + [' ', op, ' '] + nrm.buf;
      WrapText(lead, Print(t.l, false), [' ', op, ' '], Print(t.r, false));
      if op == '|' && !first {
        ghost var body := Print(t.l, false) + [' ', op, ' '] + Print(t.r, false);
        buf := buf + " )";
        WrapText(start, "( ", body, " )");
      }
    }
  }

  lemma PrintStep(t: Tree, first: bool)
    ensures match t
            case Leaf(v) => Print(t, first) == PrintInt(v)
            case Neg(u) => Print(t, first) == if u.Leaf? then "!" + Print(u, false) else "!( " + Print(u, true) + " )"
            case Bin(conj, l, r) =>
              var body := Print(l, false) + [' ', Sign(conj), ' '] + Print(r, false);
              Print(t, first) == if conj || first then body else "( " + body + " )"
  {
  }

  lemma WrapText(start: string, open: string, body: string, close: string)
    ensures start + open + body + close == start + (open + body + close)
  {
  }

  method BqarrOut(items: seq<Item>, ghost t: Tree) returns (text: string)
    requires Holds(items, 0, t) && |items| == Size(t)
    ensures text == Print(t, true)
  {
    var nrm := new Infix(|items| - 1, "");
    nrm.Write(items, true, 0, t);
    text := nrm.buf;
  }

  // ----- the expression that the printed text spells -----

  function JoinAnd(a: AndExpr, b: AndExpr): AndExpr {
    match b
    case Factor(u) => Conj(a, u)
    case Conj(c, u) => Conj(JoinAnd(a, c), u)
  }

  /** The expression spelled by Print(t, true). */
  function TopExpr(t: Tree): OrExpr
    decreases t, 1
  {
    if t.Bin? && !t.conj then Alt(Term(InnerExpr(t.l)), InnerExpr(t.r)) else Term(InnerExpr(t))
  }

  /** The expression spelled by Print(t, false). */
  function InnerExpr(t: Tree): AndExpr
    decreases t, 0
  {
    match t
    case Leaf(v) => Factor(Num(v))
    case Neg(u) => if u.Leaf? then Factor(Not(Num(u.v))) else Factor(Not(Paren(TopExpr(u))))
    case Bin(conj, l, r) =>
      if conj then JoinAnd(InnerExpr(l), InnerExpr(r))
      else Factor(Paren(Alt(Term(InnerExpr(l)), InnerExpr(r))))
  }

  /** TopExpr and InnerExpr, unfolded once. */
  lemma ExprSteps(t: Tree)
    ensures t.Leaf? ==> TopExpr(t) == Term(InnerExpr(t)) && InnerExpr(t) == Factor(Num(t.v))
    ensures t.Neg? ==> TopExpr(t) == Term(InnerExpr(t)) &&
                       InnerExpr(t) == Factor(Not(if t.t.Leaf? then Num(t.t.v) else Paren(TopExpr(t.t))))
    ensures t.Bin? && t.conj ==>
              TopExpr(t) == Term(InnerExpr(t)) && InnerExpr(t) == JoinAnd(InnerExpr(t.l), InnerExpr(t.r))
    ensures t.Bin? && !t.conj ==>
              TopExpr(t) == Alt(Term(InnerExpr(t.l)), InnerExpr(t.r)) && InnerExpr(t) == Factor(Paren(TopExpr(t)))
    ensures TopExpr(t) == Term(InnerExpr(t)) ==>
              OrTokens(TopExpr(t)) == AndTokens(InnerExpr(t)) && OrTree(TopExpr(t)) == AndTree(InnerExpr(t))
    ensures InnerExpr(t).Factor? ==>
              AndTokens(InnerExpr(t)) == UnaryTokens(InnerExpr(t).u)
              && AndTree(InnerExpr(t)) == UnaryTree(InnerExpr(t).u)
  {
  }

  lemma UnarySteps(u: Unary, base: nat)
    ensures u.Num? ==> UnaryTokens(u) == [Val(u.v)] && UnaryTree(u) == Leaf(u.v) && UnaryPeak(u, base) == base
    ensures u.Not? ==> UnaryTokens(u) == [Opr('!')] + UnaryTokens(u.u) && UnaryTree(u) == Neg(UnaryTree(u.u))
                       && UnaryPeak(u, base) == UnaryPeak(u.u, base + 1)
    ensures u.Paren? ==> UnaryTokens(u) == [Open] + OrTokens(u.o) + [Close] && UnaryTree(u) == OrTree(u.o)
                         && UnaryPeak(u, base) == Max(base, OrPeak(u.o))
  {
  }

  lemma {:induction false} JoinAndTokens(a: AndExpr, b: AndExpr)
    ensures AndTokens(JoinAnd(a, b)) == AndTokens(a) + [Opr('&')] + AndTokens(b)
  {
    match b
    case Factor(u) =>
    case Conj(c, u) =>
      JoinAndTokens(a, c);
      assert AndTokens(a) + [Opr('&')] + AndTokens(c) + [Opr('&')] + UnaryTokens(u)
          == AndTokens(a) + [Opr('&')] + (AndTokens(c) + [Opr('&')] + UnaryTokens(u));
  }

  // ----- how the text looks -----

  function TokenText(t: Token): string {
    match t
    case Val(v) => PrintInt(v)
    case Opr(c) => [c]
    case Open => "("
    case Close => ")"
    case _ => ""
  }

  /** The tokens with one space between neighbours, but none after `!`. */
  function Spaced(ts: seq<Token>): string {
    if |ts| == 0 then "" else
    TokenText(ts[0]) + (if |ts| == 1 || ts[0] == Opr('!') then "" else " ") + Spaced(ts[1..])
  }

  predicate EndsOperand(ts: seq<Token>) { |ts| > 0 && ts[|ts| - 1] != Opr('!') }

  function Gap(t: Token): string { if t == Opr('!') then "" else " " }

  lemma SpacedStep(t: Token, rest: seq<Token>)
    requires |rest| > 0
    ensures Spaced([t] + rest) == TokenText(t) + Gap(t) + Spaced(rest)
  {
    assert ([t] + rest)[1..] == rest;
  }

  lemma {:induction false} SpacedJoin(a: seq<Token>, b: seq<Token>)
    requires EndsOperand(a) && |b| > 0
    ensures Spaced(a + b) == Spaced(a) + " " + Spaced(b)
    decreases |a|
  {
    hide Spaced, TokenText, Gap;
    var t, rest := a[0], a[1..];
    assert a == [t] + rest && a + b == [t] + (rest + b);
    SpacedStep(t, rest + b);
    if |rest| == 0 {
      assert rest + b == b && a == [t];
      SpacedOne(t);
      GapAfter(t);
    } else {
      SpacedStep(t, rest);
      SpacedJoin(rest, b);
      Regroup(TokenText(t) + Gap(t), Spaced(rest), Spaced(b));
    }
  }

  lemma GapAfter(t: Token)
    requires t != Opr('!')
    ensures Gap(t) == " "
  {
  }

  lemma Regroup(a: string, b: string, c: string)
    ensures a + (b + " " + c) == a + b + " " + c
  {
  }

  lemma SpacedOne(t: Token)
    ensures Spaced([t]) == TokenText(t)
  {
    assert [t][1..] == [];
  }

  lemma SpacedNot(ts: seq<Token>)
    ensures Spaced([Opr('!')] + ts) == "!" + Spaced(ts)
  {
    assert ([Opr('!')] + ts)[1..] == ts;
  }

  lemma SpacedInfix(a: seq<Token>, c: char, b: seq<Token>)
    requires EndsOperand(a) && EndsOperand(b) && c != '!'
    ensures Spaced(a + [Opr(c)] + b) == Spaced(a) + [' ', c, ' '] + Spaced(b) && EndsOperand(a + [Opr(c)] + b)
  {
    hide Spaced;
    SpacedOne(Opr(c));
    SpacedJoin(a, [Opr(c)]);
    SpacedJoin(a + [Opr(c)], b);
  }

  lemma SpacedParen(ts: seq<Token>)
    requires EndsOperand(ts)
    ensures Spaced([Open] + ts + [Close]) == "( " + Spaced(ts) + " )" && EndsOperand([Open] + ts + [Close])
  {
    hide Spaced;
    SpacedOne(Open);
    SpacedOne(Close);
    SpacedJoin([Open], ts);
    SpacedJoin([Open] + ts, [Close]);
    assert "(" + " " + Spaced(ts) + " " + ")" == "( " + Spaced(ts) + " )";
  }

  /** The printed text is the tokens of that expression, evenly spaced. */
  lemma {:induction false} PrintIsSpaced(t: Tree)
    ensures Print(t, true) == Spaced(OrTokens(TopExpr(t))) && EndsOperand(OrTokens(TopExpr(t)))
    ensures Print(t, false) == Spaced(AndTokens(InnerExpr(t))) && EndsOperand(AndTokens(InnerExpr(t)))
    decreases t
  {
    hide Print, Spaced, TopExpr, InnerExpr;
    ExprSteps(t);
    PrintStep(t, true);
    PrintStep(t, false);
    match t
    case Leaf(v) => SpacedOne(Val(v));
    case Neg(u) =>
      PrintIsSpaced(u);
      PrintStep(u, false);
      SpacedNotOperand(u);
    case Bin(conj, l, r) =>
      PrintIsSpaced(l);
      PrintIsSpaced(r);
      var a, b := AndTokens(InnerExpr(l)), AndTokens(InnerExpr(r));
      SpacedInfix(a, Sign(conj), b);
      if conj {
        JoinAndTokens(InnerExpr(l), InnerExpr(r));
      } else {
        assert OrTokens(TopExpr(t)) == a + [Opr('|')] + b;
        SpacedParen(a + [Opr('|')] + b);
      }
  }

  lemma SpacedNotOperand(u: Tree)
    requires EndsOperand(OrTokens(TopExpr(u)))
    ensures var ts := UnaryTokens(Not(if u.Leaf? then Num(u.v) else Paren(TopExpr(u))));
            && Spaced(ts) == (if u.Leaf? then "!" + PrintInt(u.v) else "!( " + Spaced(OrTokens(TopExpr(u))) + " )")
            && EndsOperand(ts)
  {
    hide Spaced, TopExpr;
    if u.Leaf? {
      SpacedOne(Val(u.v));
      SpacedNot([Val(u.v)]);
    } else {
      var ts := [Open] + OrTokens(TopExpr(u)) + [Close];
      SpacedParen(OrTokens(TopExpr(u)));
      SpacedNot(ts);
    }
  }

  /** In front of `rest`, `text` gives the tokens `ts`. */
  ghost predicate Lexes(text: string, ts: seq<Token>, count: int, rest: string) {
    Stream(Lex(text + rest, true, count)) == ts + Stream(Lex(rest, false, count))
  }

  /** What may follow a printed operand. */
  predicate Follows(rest: string, count: int) {
    (Peek(rest) == ' ' && |rest| > 0) || (rest == "" && count == 0)
  }

  predicate Int32s(t: Tree) {
    match t
    case Leaf(v) => InInt32(v)
    case Neg(u) => Int32s(u)
    case Bin(_, l, r) => Int32s(l) && Int32s(r)
  }

  lemma NumberLexes(v: int, count: int, rest: string)
    requires InInt32(v) && count >= 0 && Follows(rest, count)
    ensures Lexes(PrintInt(v), [Val(v)], count, rest)
  {
    PrintedNumberToken(v, rest, count);
  }

  lemma CharLexes(c: char, t: Token, b: string, count: int, count': int)
    requires (c == '!' && t == Opr('!') && count' == count) || (c == '(' && t == Open && count' == count + 1)
    ensures Stream(Lex([c] + b, true, count)) == [t] + Stream(Lex(b, true, count'))
  {
    assert ([c] + b)[1..] == b;
  }

  lemma SpaceLexes(b: string, count: int)
    ensures Stream(Lex(" " + b, true, count)) == Stream(Lex(b, true, count))
  {
    assert (" " + b)[1..] == b;
    SkipSpacesSame(b);
  }

  lemma SkipSpacesSame(b: string)
    ensures SkipSpaces(" " + b) == SkipSpaces(b)
  {
    assert (" " + b)[1..] == b;
  }

  lemma OperatorLexes(c: char, b: string, count: int)
    requires c == '&' || c == '|'
    ensures Stream(Lex([' ', c, ' '] + b, false, count)) == [Opr(c)] + Stream(Lex(b, true, count))
  {
    var s := [' ', c, ' '] + b;
    assert s[1..] == [c, ' '] + b;
    assert SkipSpaces(s) == [c, ' '] + b;
    assert ([c, ' '] + b)[1..] == " " + b;
    SpaceLexes(b, count);
  }

  lemma CloseLexes(b: string, count: int)
    requires count >= 0
    ensures Stream(Lex(" )" + b, false, count + 1)) == [Close] + Stream(Lex(b, false, count))
  {
    var s := " )" + b;
    assert s[1..] == ")" + b;
    assert SkipSpaces(s) == ")" + b;
    assert (")" + b)[1..] == b;
  }

  /** The printed text is, token for token, the expression TopExpr or InnerExpr says. */
  lemma {:induction false} PrintLexes(t: Tree, first: bool, count: int, rest: string)
    requires Int32s(t) && count >= 0 && Follows(rest, count)
    ensures Lexes(Print(t, first), if first then OrTokens(TopExpr(t)) else AndTokens(InnerExpr(t)), count, rest)
    decreases t
  {
    hide Stream, NextToken, Print, TopExpr, InnerExpr;
    PrintStep(t, first);
    ExprSteps(t);
    match t
    case Leaf(v) =>
      NumberLexes(v, count, rest);
      UnarySteps(Num(v), 0);
    case Neg(u) =>
      if u.Leaf? {
        PrintStep(u, false);
        NumberLexes(u.v, count, rest);
        CharLexes('!', Opr('!'), PrintInt(u.v) + rest, count, count);
        Glue("!", PrintInt(u.v), rest);
        UnarySteps(Not(Num(u.v)), 0);
        UnarySteps(Num(u.v), 0);
      } else {
        var tail := " )" + rest;
        GroupLexes(Print(u, true), OrTokens(TopExpr(u)), count, rest) by {
          PrintLexes(u, true, count + 1, tail);
        }
        var group := "( " + Print(u, true) + " )";
        CharLexes('!', Opr('!'), group + rest, count, count);
        assert "!( " + Print(u, true) + " )" + rest == ['!'] + (group + rest);
        UnarySteps(Not(Paren(TopExpr(u))), 0);
        UnarySteps(Paren(TopExpr(u)), 0);
      }
    case Bin(conj, l, r) =>
      var body := Print(l, false) + [' ', Sign(conj), ' '] + Print(r, false);
      var ts := AndTokens(InnerExpr(l)) + [Opr(Sign(conj))] + AndTokens(InnerExpr(r));
      if conj {
        BinaryLexes(t, count, rest);
        JoinAndTokens(InnerExpr(l), InnerExpr(r));
      } else if first {
        BinaryLexes(t, count, rest);
      } else {
        GroupLexes(body, ts, count, rest) by {
          BinaryLexes(t, count + 1, " )" + rest);
        }
        UnarySteps(Paren(TopExpr(t)), 0);
      }
  }

  lemma Glue(a: string, b: string, c: string)
    ensures a + b + c == a + (b + c)
  {
  }

  lemma GroupLexes(body: string, ts: seq<Token>, count: int, rest: string)
    requires count >= 0 && Lexes(body, ts, count + 1, " )" + rest)
    ensures Lexes("( " + body + " )", [Open] + ts + [Close], count, rest)
  {
    hide Stream, NextToken;
    var tail := " )" + rest;
    CharLexes('(', Open, " " + (body + tail), count, count + 1);
    SpaceLexes(body + tail, count + 1);
    CloseLexes(rest, count);
    assert "( " + body + " )" + rest == ['('] + (" " + (body + tail));
  }

  lemma {:induction false} BinaryLexes(t: Tree, count: int, rest: string)
    requires t.Bin? && Int32s(t) && count >= 0 && Follows(rest, count)
    ensures Lexes(Print(t.l, false) + [' ', Sign(t.conj), ' '] + Print(t.r, false),
                  AndTokens(InnerExpr(t.l)) + [Opr(Sign(t.conj))] + AndTokens(InnerExpr(t.r)), count, rest)
    decreases t, 0
  {
    hide Stream, NextToken, Print;
    var op := [' ', Sign(t.conj), ' '];
    var tail := op + (Print(t.r, false) + rest);
    PrintLexes(t.l, false, count, tail);
    OperatorLexes(Sign(t.conj), Print(t.r, false) + rest, count);
    PrintLexes(t.r, false, count, rest);
    assert Print(t.l, false) + op + Print(t.r, false) + rest == Print(t.l, false) + tail;
  }

  // ----- the tree of the printed text -----

  /** `t` with every chain of & re-associated to the left. */
  function Normal(t: Tree): Tree { OrTree(TopExpr(t)) }

  /** Evaluation by a test of the value alone, as all checks but GIN's are. */
  function Value(t: Tree, f: int -> bool, calcnot: bool): bool { Eval(t, 0, calcnot, ByValue(f)) }

  function ByValue(f: int -> bool): Check { (p: nat, v: int) => f(v) }

  lemma {:induction false} EvalAnywhere(t: Tree, at: nat, f: int -> bool, calcnot: bool)
    ensures Eval(t, at, calcnot, ByValue(f)) == Value(t, f, calcnot)
    decreases t
  {
    match t
    case Leaf(_) =>
    case Neg(u) => EvalAnywhere(u, at, f, calcnot);
    case Bin(_, l, r) =>
      EvalAnywhere(l, at, f, calcnot);
      EvalAnywhere(r, at + Size(l), f, calcnot);
      EvalAnywhere(r, Size(l), f, calcnot);
  }

  lemma ValueBin(conj: bool, l: Tree, r: Tree, f: int -> bool, calcnot: bool)
    ensures Value(Bin(conj, l, r), f, calcnot) ==
            if conj then Value(l, f, calcnot) && Value(r, f, calcnot) else Value(l, f, calcnot) || Value(r, f, calcnot)
  {
    EvalAnywhere(r, Size(l), f, calcnot);
  }

  lemma {:induction false} JoinAndValue(a: AndExpr, b: AndExpr, f: int -> bool, calcnot: bool)
    ensures Value(AndTree(JoinAnd(a, b)), f, calcnot)
            == (Value(AndTree(a), f, calcnot) && Value(AndTree(b), f, calcnot))
  {
    hide Value;
    match b
    case Factor(u) => ValueBin(true, AndTree(a), UnaryTree(u), f, calcnot);
    case Conj(c, u) =>
      JoinAndValue(a, c, f, calcnot);
      ValueBin(true, AndTree(JoinAnd(a, c)), UnaryTree(u), f, calcnot);
      ValueBin(true, AndTree(c), UnaryTree(u), f, calcnot);
  }

  /** Printing keeps the meaning, for every test and both treatments of NOT. */
  lemma {:induction false} NormalKeepsValue(t: Tree, f: int -> bool, calcnot: bool)
    ensures Value(Normal(t), f, calcnot) == Value(t, f, calcnot)
    ensures Value(AndTree(InnerExpr(t)), f, calcnot) == Value(t, f, calcnot)
  {
    hide TopExpr, InnerExpr;
    ExprSteps(t);
    match t
    case Leaf(_) =>
    case Neg(u) =>
      NormalKeepsValue(u, f, calcnot);
      UnarySteps(InnerExpr(t).u, 0);
      UnarySteps(InnerExpr(t).u.u, 0);
    case Bin(conj, l, r) =>
      NormalKeepsValue(l, f, calcnot);
      NormalKeepsValue(r, f, calcnot);
      ValueBin(conj, l, r, f, calcnot);
      if conj {
        JoinAndValue(InnerExpr(l), InnerExpr(r), f, calcnot);
      } else {
        ValueBin(false, AndTree(InnerExpr(l)), AndTree(InnerExpr(r)), f, calcnot);
        UnarySteps(Paren(TopExpr(t)), 0);
      }
  }

  lemma {:induction false} JoinAndPrint(a: AndExpr, b: AndExpr)
    ensures Print(AndTree(JoinAnd(a, b)), false)
            == Print(AndTree(a), false) + [' ', '&', ' '] + Print(AndTree(b), false)
  {
    hide Print;
    match b
    case Factor(u) => PrintStep(Bin(true, AndTree(a), UnaryTree(u)), false);
    case Conj(c, u) =>
      JoinAndPrint(a, c);
      PrintStep(Bin(true, AndTree(JoinAnd(a, c)), UnaryTree(u)), false);
      PrintStep(Bin(true, AndTree(c), UnaryTree(u)), false);
      var and := [' ', '&', ' '];
      Assoc(Print(AndTree(a), false), and, Print(AndTree(c), false), and);
      Assoc(Print(AndTree(a), false) + and, Print(AndTree(c), false), and, Print(UnaryTree(u), false));
      Assoc(Print(AndTree(a), false), and, Print(AndTree(c), false) + and, Print(UnaryTree(u), false));
  }

  /** Printing is stable: what the reparsed query prints is the text it was read from. */
  lemma {:induction false} PrintIsStable(t: Tree)
    ensures Print(Normal(t), true) == Print(t, true)
    ensures Print(AndTree(InnerExpr(t)), false) == Print(t, false)
    ensures Normal(t).Leaf? == t.Leaf? && Normal(t).Neg? == t.Neg?
            && (t.Bin? ==> Normal(t).Bin? && Normal(t).conj == t.conj)
  {
    hide Print, TopExpr, InnerExpr;
    ExprSteps(t);
    PrintStep(t, true);
    PrintStep(t, false);
    PrintStep(Normal(t), true);
    PrintStep(Normal(t), false);
    match t
    case Leaf(_) =>
    case Neg(u) =>
      PrintIsStable(u);
      UnarySteps(InnerExpr(t).u, 0);
      UnarySteps(InnerExpr(t).u.u, 0);
      PrintStep(Leaf(if u.Leaf? then u.v else 0), false);
    case Bin(conj, l, r) =>
      PrintIsStable(l);
      PrintIsStable(r);
      if conj {
        JoinAndPrint(InnerExpr(l), InnerExpr(r));
        JoinAndIsConj(InnerExpr(l), InnerExpr(r));
      } else {
        UnarySteps(Paren(TopExpr(t)), 0);
      }
  }

  lemma JoinAndIsConj(a: AndExpr, b: AndExpr)
    ensures AndTree(JoinAnd(a, b)).Bin? && AndTree(JoinAnd(a, b)).conj
  {
  }

  /** Every factor keeps the stack at 3 or less, even with two operators below it. */
  predicate LowFactors(a: AndExpr) {
    match a
    case Factor(u) => UnaryPeak(u, 2) <= 3
    case Conj(b, u) => LowFactors(b) && UnaryPeak(u, 2) <= 3
  }

  lemma {:induction false} JoinAndLow(a: AndExpr, b: AndExpr)
    requires LowFactors(a) && LowFactors(b)
    ensures LowFactors(JoinAnd(a, b))
  {
    if b.Conj? { JoinAndLow(a, b.a); }
  }

  lemma {:induction false} UnaryPeakGrows(u: Unary, m: nat, n: nat)
    requires m <= n
    ensures UnaryPeak(u, m) <= UnaryPeak(u, n)
  {
    if u.Not? { UnaryPeakGrows(u.u, m + 1, n + 1); }
  }

  lemma {:induction false} LowFactorsPeak(a: AndExpr, base: nat)
    requires LowFactors(a) && base <= 1
    ensures AndPeak(a, base) <= 3
  {
    match a
    case Factor(u) => UnaryPeakGrows(u, base, 2);
    case Conj(b, u) => LowFactorsPeak(b, base); UnaryPeakGrows(u, base + 1, 2);
  }

  /** Reading a printed query back never holds more than 3 pending operators on any level. */
  lemma {:induction false} PrintedPeak(t: Tree)
    ensures OrPeak(TopExpr(t)) <= 3 && LowFactors(InnerExpr(t))
  {
    hide TopExpr, InnerExpr;
    ExprSteps(t);
    match t {
      case Leaf(_) =>
      case Neg(u) =>
        PrintedPeak(u);
        UnarySteps(InnerExpr(t).u, 2);
        UnarySteps(InnerExpr(t).u.u, 3);
      case Bin(conj, l, r) =>
        PrintedPeak(l);
        PrintedPeak(r);
        LowFactorsPeak(InnerExpr(l), 0);
        LowFactorsPeak(InnerExpr(r), 1);
        if conj { JoinAndLow(InnerExpr(l), InnerExpr(r)); }
        else { UnarySteps(Paren(TopExpr(t)), 2); }
    }
    if TopExpr(t).Term? { LowFactorsPeak(InnerExpr(t), 0); }
  }

  /** Print then reparse: the printed text of any query compiles, needs at most 3 pending operators
      per level, gives the same tree up to re-association of &, hence the same value under every
      test, and prints as itself again. */
  lemma PrintThenReparse(t: Tree, f: int -> bool, calcnot: bool)
    requires Int32s(t)
    ensures var text := Print(t, true);
            && Spells(text, TopExpr(t)) && OrPeak(TopExpr(t)) <= 3
            && Compile(text) == Ok(Post(Normal(t)), [])
            && Value(Normal(t), f, calcnot) == Value(t, f, calcnot)
            && Print(Normal(t), true) == text
  {
    var text := Print(t, true);
    PrintLexes(t, true, 0, "");
    assert text + "" == text;
    assert Stream(Lex("", false, 0)) == [End];
    PrintedPeak(t);
    CompileIff(text);
    NormalKeepsValue(t, f, calcnot);
    PrintIsStable(t);
  }

  /** Every value of a compiled query is an int32, so what bqarr_in accepts can be printed and reread. */
  lemma {:induction false} StreamValues(s: Lex)
    ensures forall i | 0 <= i < |Stream(s)| && Stream(s)[i].Val? :: InInt32(Stream(s)[i].v)
    decreases |s.buf|
  {
    var (t, s') := NextToken(s);
    if t != End && t != Err { StreamValues(s'); }
  }

  predicate TokenInts(ts: seq<Token>) { forall i | 0 <= i < |ts| && ts[i].Val? :: InInt32(ts[i].v) }

  lemma TokenIntsSplit(a: seq<Token>, b: seq<Token>)
    ensures TokenInts(a + b) ==> TokenInts(a) && TokenInts(b)
  {
    if TokenInts(a + b) {
      forall i | 0 <= i < |a| && a[i].Val? ensures InInt32(a[i].v) { assert (a + b)[i] == a[i]; }
      forall i | 0 <= i < |b| && b[i].Val? ensures InInt32(b[i].v) { assert (a + b)[|a| + i] == b[i]; }
    }
  }

  lemma {:induction false} OrInts(o: OrExpr)
    requires TokenInts(OrTokens(o))
    ensures Int32s(OrTree(o))
  {
    match o
    case Term(a) => AndInts(a);
    case Alt(p, a) =>
      TokenIntsSplit(OrTokens(p) + [Opr('|')], AndTokens(a));
      TokenIntsSplit(OrTokens(p), [Opr('|')]);
      OrInts(p);
      AndInts(a);
  }

  lemma {:induction false} AndInts(a: AndExpr)
    requires TokenInts(AndTokens(a))
    ensures Int32s(AndTree(a))
  {
    match a
    case Factor(u) => UnaryInts(u);
    case Conj(b, u) =>
      TokenIntsSplit(AndTokens(b) + [Opr('&')], UnaryTokens(u));
      TokenIntsSplit(AndTokens(b), [Opr('&')]);
      AndInts(b);
      UnaryInts(u);
  }

  lemma {:induction false} UnaryInts(u: Unary)
    requires TokenInts(UnaryTokens(u))
    ensures Int32s(UnaryTree(u))
  {
    match u
    case Num(v) => assert UnaryTokens(u)[0] == Val(v);
    case Not(w) => TokenIntsSplit([Opr('!')], UnaryTokens(w)); UnaryInts(w);
    case Paren(o) =>
      TokenIntsSplit([Open] + OrTokens(o), [Close]);
      TokenIntsSplit([Open], OrTokens(o));
      OrInts(o);
  }

  /** So every query that bqarr_in builds can be printed, and its text compiles to the re-associated tree. */
  lemma AcceptedQueryReparses(text: string, f: int -> bool, calcnot: bool)
    requires Compile(text).Ok?
    ensures var t := TreeOf(text);
            var again := Print(t, true);
            Compile(again) == Ok(Post(Normal(t)), []) && Value(Normal(t), f, calcnot) == Value(t, f, calcnot)
  {
    CompileIff(text);
    var o :| Spells(text, o) && OrPeak(o) <= STACKDEPTH && OrTree(o) == TreeOf(text);
    StreamValues(Start(text));
    TokenIntsSplit(OrTokens(o), [End]);
    OrInts(o);
    PrintThenReparse(TreeOf(text), f, calcnot);
  }

  // ----- the array of the printed text -----

  /** Every factor's links fit, and it may stand to the right of another operand. */
  predicate FactorsFit(a: AndExpr) {
    match a
    case Factor(u) => LinksFit(UnaryTree(u)) && Size(UnaryTree(u)) <= MAXRIGHT
    case Conj(b, u) => FactorsFit(b) && LinksFit(UnaryTree(u)) && Size(UnaryTree(u)) <= MAXRIGHT
  }

  lemma {:induction false} SmallFactorsFit(a: AndExpr)
    requires LinksFit(AndTree(a)) && Size(AndTree(a)) <= MAXRIGHT
    ensures FactorsFit(a)
  {
    if a.Conj? { SmallFactorsFit(a.a); }
  }

  lemma {:induction false} JoinAndFits(a: AndExpr, b: AndExpr)
    requires LinksFit(AndTree(a)) && FactorsFit(b)
    ensures LinksFit(AndTree(JoinAnd(a, b)))
  {
    if b.Conj? { JoinAndFits(a, b.a); }
  }

  lemma {:induction false} JoinAndSize(a: AndExpr, b: AndExpr)
    ensures Size(AndTree(JoinAnd(a, b))) == Size(AndTree(a)) + Size(AndTree(b)) + 1
  {
    if b.Conj? { JoinAndSize(a, b.a); }
  }

  /** Re-association keeps the number of items, and links that fit keep fitting. */
  lemma {:induction false} NormalFits(t: Tree)
    ensures Size(Normal(t)) == Size(AndTree(InnerExpr(t))) == Size(t)
    ensures LinksFit(t) ==> LinksFit(Normal(t)) && LinksFit(AndTree(InnerExpr(t)))
  {
    hide TopExpr, InnerExpr;
    ExprSteps(t);
    match t
    case Leaf(_) => UnarySteps(Num(t.v), 0);
    case Neg(u) =>
      NormalFits(u);
      UnarySteps(InnerExpr(t).u, 0);
      UnarySteps(InnerExpr(t).u.u, 0);
    case Bin(conj, l, r) =>
      NormalFits(l);
      NormalFits(r);
      if conj {
        JoinAndSize(InnerExpr(l), InnerExpr(r));
        if LinksFit(t) {
          SmallFactorsFit(InnerExpr(r));
          JoinAndFits(InnerExpr(l), InnerExpr(r));
        }
      } else {
        UnarySteps(Paren(TopExpr(t)), 0);
      }
  }

  /** Both arrays are well linked and give the same answer for every test of values. */
  ghost predicate SameAnswers(a: seq<Item>, b: seq<Item>) {
    && |a| > 0 && |b| > 0 && Linked(a) && Linked(b)
    && forall f, calcnot :: Answer(a, f, calcnot) == Answer(b, f, calcnot)
  }

  function Answer(items: seq<Item>, f: int -> bool, calcnot: bool): bool
    requires |items| > 0 && Linked(items)
  {
    Execute(items, |items| - 1, calcnot, ByValue(f))
  }

  lemma ArraysAgree(a: seq<Item>, b: seq<Item>, t: Tree)
    requires Holds(a, 0, t) && |a| == Size(t) && Holds(b, 0, Normal(t)) && |b| == Size(Normal(t)) && LinksFit(t)
    ensures SameAnswers(a, b)
  {
    hide Holds, Execute, Eval, Normal;
    NormalFits(t);
    FittingLinks(a, 0, t);
    FittingLinks(b, 0, Normal(t));
    forall f, calcnot ensures Answer(a, f, calcnot) == Answer(b, f, calcnot) {
      ExecuteIsEval(a, 0, |a| - 1, t, calcnot, ByValue(f));
      ExecuteIsEval(b, 0, |b| - 1, Normal(t), calcnot, ByValue(f));
      NormalKeepsValue(t, f, calcnot);
    }
  }

  lemma NormalIsTreeOf(t: Tree, again: string)
    requires Compile(again) == Ok(Post(Normal(t)), [])
    ensures TreeOf(again) == Normal(t)
  {
    hide Normal, Compile;
    TreeOfPost(again);
    PostUnique(TreeOf(again), Normal(t));
  }

  /** bqarr_in, bqarr_out and bqarr_in again: whatever text is accepted, so is the text printed for it,
      with as many items, and if the links of the first array fit, the two arrays answer alike. */
  method Reread(text: string) returns (first: Compiled, printed: string, again: Compiled)
    ensures first.Items? <==> Compile(text).Ok? && Size(TreeOf(text)) <= QUERYTYPEMAXITEMS
    ensures first.Items? ==> again.Items? && |again.items| == |first.items|
    ensures first.Items? ==> Holds(again.items, 0, Normal(TreeOf(text))) && printed == Print(Normal(TreeOf(text)), true)
    ensures first.Items? && LinksFit(TreeOf(text)) ==> SameAnswers(first.items, again.items)
  {
    hide Holds, Compile, Print, Normal, TreeOf, LinksFit, Size, SameAnswers;
    first := BqarrIn(text);
    printed, again := "", first;
    if first.Items? {
      ghost var t := TreeOf(text);
      printed := BqarrOut(first.items, t);
      AcceptedQueryReparses(text, v => true, true);
      again := BqarrIn(printed);
      NormalIsTreeOf(t, printed);
      NormalFits(t);
      PrintIsStable(t);
      if LinksFit(t) { ArraysAgree(first.items, again.items, t); }
    }
  }
}
