/** Queries whose right operands outgrow the 16-bit links: exactly these are evaluated wrongly. */
module QueryWideLinks {
  import opened QueryLexer
  import opened QueryGrammar
  import opened QueryEval
  import opened QueryCompiler
  import opened QueryPrint

  // ----- tests that steer a tree -----

  /** f below position `mid`, g from it on. */
  function Join(f: Check, g: Check, mid: nat): Check { (p: nat, v: int) => if p < mid then f(p, v) else g(p, v) }

  /** A test under which the tree at `at` is b: every item is read once, so its values can be chosen. */
  function Make(t: Tree, at: nat, b: bool): Check {
    match t
    case Leaf(_) => (p: nat, v: int) => b
    case Neg(u) => Make(u, at, !b)
    case Bin(_, l, r) => Join(Make(l, at, b), Make(r, at + Size(l), b), at + Size(l))
  }

  /** f and g agree on the positions from lo up to, not including, hi. */
  ghost predicate Agree(f: Check, g: Check, lo: nat, hi: nat) { forall p: nat, v | lo <= p < hi :: f(p, v) == g(p, v) }

  lemma JoinAgrees(f: Check, g: Check, mid: nat, hi: nat)
    ensures Agree(Join(f, g, mid), f, 0, mid) && Agree(Join(f, g, mid), g, mid, hi)
  {
  }

  lemma {:induction false} EvalLocal(t: Tree, at: nat, f: Check, g: Check)
    requires Agree(f, g, at, at + Size(t))
    ensures Eval(t, at, true, f) == Eval(t, at, true, g)
    decreases t
  {
    match t
    case Leaf(_) =>
    case Neg(u) => EvalLocal(u, at, f, g);
    case Bin(_, l, r) => EvalLocal(l, at, f, g); EvalLocal(r, at + Size(l), f, g);
  }

  lemma {:induction false} EvalMade(t: Tree, at: nat, b: bool)
    ensures Eval(t, at, true, Make(t, at, b)) == b
    decreases t
  {
    match t
    case Leaf(_) =>
    case Neg(u) => EvalMade(u, at, !b);
    case Bin(_, l, r) =>
      var f, g, mid := Make(l, at, b), Make(r, at + Size(l), b), at + Size(l);
      EvalMade(l, at, b);
      EvalMade(r, mid, b);
      JoinAgrees(f, g, mid, mid + Size(r));
      EvalLocal(l, at, Join(f, g, mid), f);
      EvalLocal(r, mid, Join(f, g, mid), g);
  }

  // ----- evaluation stays among a subtree's items -----

  /** A wrapped link is too short, never too long: operators of a subtree refer to its own items. */
  lemma {:induction false} StaysInside(items: seq<Item>, at: nat, t: Tree, i: nat)
    requires Holds(items, at, t) && at <= i < at + Size(t) && items[i].node.OPR?
    ensures at < i && (items[i].node.c != '!' ==> at <= i + items[i].left)
    decreases t
  {
    hide Holds;
    HoldsRoot(items, at, t);
    match t
    case Leaf(_) =>
    case Neg(u) => if i < at + Size(u) { StaysInside(items, at, u, i); }
    case Bin(_, l, r) =>
      if i < at + Size(l) {
        StaysInside(items, at, l, i);
      } else if i < at + Size(l) + Size(r) {
        StaysInside(items, at + Size(l), r, i);
      }
  }

  lemma {:induction false} ExecuteLocal(items: seq<Item>, at: nat, t: Tree, i: nat, f: Check, g: Check)
    requires Linked(items) && Holds(items, at, t) && at <= i < at + Size(t) && Agree(f, g, at, at + Size(t))
    ensures Execute(items, i, true, f) == Execute(items, i, true, g)
    decreases i
  {
    hide Holds;
    HoldsRoot(items, at, t);
    assert LinkAt(items, i);
    if items[i].node.OPR? {
      StaysInside(items, at, t, i);
      ExecuteLocal(items, at, t, i - 1, f, g);
      if items[i].node.c != '!' { ExecuteLocal(items, at, t, i + items[i].left, f, g); }
    }
  }

  // ----- a test that shows the difference -----

  function Neutral(conj: bool): bool { conj }

  function Combine(conj: bool, a: bool, b: bool): bool { if conj then a && b else a || b }

  /** What a linked binary root evaluates to: its right operand, and whatever its link points at. */
  lemma ExecuteRoot(items: seq<Item>, left: nat, root: nat, conj: bool, chk: Check)
    requires Linked(items) && root < |items| && items[root].node == OPR(Sign(conj)) && left == root + items[root].left
    ensures left < root
    ensures Execute(items, root, true, chk)
            == Combine(conj, Execute(items, left, true, chk), Execute(items, root - 1, true, chk))
  {
    assert LinkAt(items, root);
  }

  /** The right operand is so wide that the link points into it: the left operand is not read at all. */
  lemma WideRoot(items: seq<Item>, at: nat, conj: bool, l: Tree, r: Tree) returns (chk: Check)
    requires Linked(items) && Holds(items, at, Bin(conj, l, r)) && Size(r) > MAXRIGHT
    ensures var t := Bin(conj, l, r); Execute(items, at + Size(t) - 1, true, chk) != Eval(t, at, true, chk)
  {
    hide Holds, Execute, Eval, Make;
    var t := Bin(conj, l, r);
    HoldsRoot(items, at, t);
    var mid, root := at + Size(l), at + Size(l) + Size(r);
    assert LinkAt(items, root);
    var left := root + items[root].left;
    assert mid <= left;
    var g := Make(r, mid, Neutral(conj));
    var e := Combine(conj, Execute(items, left, true, g), Execute(items, root - 1, true, g));
    var f := Make(l, at, !e);
    chk := Join(f, g, mid);
    JoinAgrees(f, g, mid, root);
    ExecuteRoot(items, left, root, conj, chk);
    ExecuteLocal(items, mid, r, left, chk, g);
    ExecuteLocal(items, mid, r, root - 1, chk, g);
    EvalMade(l, at, !e);
    EvalMade(r, mid, Neutral(conj));
    EvalLocal(l, at, chk, f);
    EvalLocal(r, mid, chk, g);
    EvalStep(t, at, true, chk);
  }

  /** The root's own link is right, but one of its operands is misread. */
  lemma NarrowRoot(items: seq<Item>, at: nat, conj: bool, l: Tree, r: Tree, f: Check, g: Check) returns (chk: Check)
    requires Linked(items) && Holds(items, at, Bin(conj, l, r)) && Size(r) <= MAXRIGHT
    requires var mid, last := at + Size(l), at + Size(l) + Size(r) - 1;
             || (Execute(items, mid - 1, true, f) == Neutral(conj) && Eval(l, at, true, f) == Neutral(conj)
                 && Execute(items, last, true, g) != Eval(r, mid, true, g))
             || (Execute(items, mid - 1, true, f) != Eval(l, at, true, f)
                 && Execute(items, last, true, g) == Eval(r, mid, true, g) == Neutral(conj))
             || (Execute(items, mid - 1, true, f) != Neutral(conj)
                && Eval(l, at, true, f) == Eval(r, mid, true, g) == Neutral(conj))
    ensures var t := Bin(conj, l, r); Execute(items, at + Size(t) - 1, true, chk) != Eval(t, at, true, chk)
  {
    hide Holds, Execute, Eval;
    var t := Bin(conj, l, r);
    HoldsRoot(items, at, t);
    var mid, root := at + Size(l), at + Size(l) + Size(r);
    SmallInt16(-1 - Size(r));
    chk := Join(f, g, mid);
    JoinAgrees(f, g, mid, root);
    ExecuteRoot(items, mid - 1, root, conj, chk);
    ExecuteLocal(items, at, l, mid - 1, chk, f);
    ExecuteLocal(items, mid, r, root - 1, chk, g);
    EvalLocal(l, at, chk, f);
    EvalLocal(r, mid, chk, g);
    EvalStep(t, at, true, chk);
  }

  /** Some test is evaluated wrongly as soon as one link does not fit. */
  lemma {:induction false} Misread(items: seq<Item>, at: nat, t: Tree) returns (chk: Check)
    requires Linked(items) && Holds(items, at, t) && !LinksFit(t)
    ensures Execute(items, at + Size(t) - 1, true, chk) != Eval(t, at, true, chk)
    decreases t
  {
    hide Holds, Execute, Eval, Make;
    HoldsRoot(items, at, t);
    match t {
      case Neg(u) =>
        chk := Misread(items, at, u);
        ExecuteNot(items, at + Size(u), true, chk);
        EvalStep(t, at, true, chk);
      case Bin(conj, l, r) =>
        var mid, last := at + Size(l), at + Size(l) + Size(r) - 1;
        if Size(r) > MAXRIGHT {
          chk := WideRoot(items, at, conj, l, r);
        } else {
          var f, g := Make(l, at, Neutral(conj)), Make(r, mid, Neutral(conj));
          EvalMade(l, at, Neutral(conj));
          EvalMade(r, mid, Neutral(conj));
          if Execute(items, mid - 1, true, f) == Neutral(conj) {
            if !LinksFit(r) {
              g := Misread(items, mid, r);
            } else {
              f := Misread(items, at, l);
              ExecuteIsEval(items, mid, last, r, true, g);
            }
          }
          chk := NarrowRoot(items, at, conj, l, r, f, g);
        }
    }
  }

  /** The compiled array is well linked and means its tree, for every test and both treatments of NOT,
      if and only if no right operand has more than 32767 items. */
  lemma MeaningIff(items: seq<Item>, t: Tree)
    requires Holds(items, 0, t) && |items| == Size(t)
    ensures (Linked(items) &&
             forall calcnot, chk :: Execute(items, |items| - 1, calcnot, chk) == Eval(t, 0, calcnot, chk))
            <==> LinksFit(t)
  {
    hide Holds, Execute, Eval;
    if LinksFit(t) {
      FittingLinks(items, 0, t);
      forall calcnot, chk ensures Execute(items, |items| - 1, calcnot, chk) == Eval(t, 0, calcnot, chk) {
        ExecuteIsEval(items, 0, |items| - 1, t, calcnot, chk);
      }
    } else if Linked(items) {
      var chk := Misread(items, 0, t);
      assert Execute(items, |items| - 1, true, chk) != Eval(t, 0, true, chk);
    }
  }

  /** Compiler correctness with its exact condition: what bqarr_in returns for a text means the expression
      the text spells if and only if no right operand of it has more than 32767 items, as in every query
      of up to 32768 items. */
  lemma CompiledMeaningIff(text: string, o: OrExpr, items: seq<Item>)
    requires Spells(text, o) && Compile(text).Ok?
    requires |items| == Size(TreeOf(text)) && Holds(items, 0, TreeOf(text))
    ensures (Linked(items) &&
             forall calcnot, chk :: Execute(items, |items| - 1, calcnot, chk) == Eval(OrTree(o), 0, calcnot, chk))
            <==> LinksFit(OrTree(o))
    ensures |items| <= 32768 ==> LinksFit(OrTree(o))
  {
    hide Holds, Execute, Eval, Compile;
    CompileIff(text);
    TreeOfPost(text);
    PostUnique(OrTree(o), TreeOf(text));
    MeaningIff(items, OrTree(o));
    if |items| <= 32768 { SmallQueriesFit(OrTree(o)); }
  }

  // ----- such queries -----

  /** 0 | 0 | ... | 0 with n + 1 zeros, as text, as an expression and as a tree. */
  function ZerosText(n: nat): string { if n == 0 then "0" else ZerosText(n - 1) + " | " + "0" }

  function Zeros(n: nat): OrExpr { if n == 0 then Term(Factor(Num(0))) else Alt(Zeros(n - 1), Factor(Num(0))) }

  /** The text 1 & ( 0 | 0 | ... | 0 ) */
  function WideText(n: nat): string { "1" + " & " + ("( " + ZerosText(n) + " )") }

  function Wide(n: nat): OrExpr { Term(Conj(Factor(Num(1)), Paren(Zeros(n)))) }

  lemma {:induction false} ZerosLexes(n: nat, count: int, rest: string)
    requires count > 0 && Follows(rest, count)
    ensures Lexes(ZerosText(n), OrTokens(Zeros(n)), count, rest)
  {
    hide Stream, NextToken;
    DigitLexes(0, "0", count, rest);
    if n > 0 {
      ZerosLexes(n - 1, count, " | " + ("0" + rest));
      OperatorLexes('|', "0" + rest, count);
      assert ZerosText(n) + rest == ZerosText(n - 1) + (" | " + ("0" + rest));
      assert [' ', '|', ' '] + ("0" + rest) == " | " + ("0" + rest);
    }
  }

  lemma DigitLexes(v: nat, text: string, count: int, rest: string)
    requires count >= 0 && Follows(rest, count) && ((v == 0 && text == "0") || (v == 1 && text == "1"))
    ensures Lexes(text, [Val(v)], count, rest)
  {
    NumberLexes(v, count, rest);
    assert PrintInt(v) == text;
  }

  lemma WideSpells(n: nat)
    ensures Spells(WideText(n), Wide(n))
  {
    hide Stream, NextToken, ZerosText, Zeros;
    var group := "( " + ZerosText(n) + " )";
    ZerosLexes(n, 1, " )" + "");
    GroupLexes(ZerosText(n), OrTokens(Zeros(n)), 0, "");
    DigitLexes(1, "1", 0, " & " + (group + ""));
    OperatorLexes('&', group + "", 0);
    assert [' ', '&', ' '] + (group + "") == " & " + (group + "");
    assert "1" + (" & " + (group + "")) == WideText(n);
    EndOfText();
    UnarySteps(Paren(Zeros(n)), 0);
    assert AndTokens(Factor(Num(1))) == UnaryTokens(Num(1)) == [Val(1)];
    assert OrTokens(Wide(n)) == AndTokens(Conj(Factor(Num(1)), Paren(Zeros(n))));
    assert OrTokens(Wide(n)) == [Val(1)] + [Opr('&')] + ([Open] + OrTokens(Zeros(n)) + [Close]);
  }

  lemma EndOfText()
    ensures Stream(Lex("", false, 0)) == [End]
  {
  }

  function ZerosTree(n: nat): Tree { if n == 0 then Leaf(0) else Bin(false, ZerosTree(n - 1), Leaf(0)) }

  function WideTree(n: nat): Tree { Bin(true, Leaf(1), ZerosTree(n)) }

  lemma {:induction false} ZerosSpellTree(n: nat)
    ensures OrTree(Zeros(n)) == ZerosTree(n) && OrPeak(Zeros(n)) <= 1
  {
    assert AndTree(Factor(Num(0))) == UnaryTree(Num(0)) == Leaf(0);
    assert AndPeak(Factor(Num(0)), 1) == UnaryPeak(Num(0), 1) == 1;
    assert AndPeak(Factor(Num(0)), 0) == UnaryPeak(Num(0), 0) == 0;
    if n > 0 { ZerosSpellTree(n - 1); }
  }

  lemma WideSpellsTree(n: nat)
    ensures OrTree(Wide(n)) == WideTree(n) && OrPeak(Wide(n)) <= STACKDEPTH
  {
    hide Zeros, ZerosTree;
    ZerosSpellTree(n);
    assert AndTree(Factor(Num(1))) == UnaryTree(Num(1)) == Leaf(1);
    assert AndPeak(Factor(Num(1)), 0) == UnaryPeak(Num(1), 0) == 0;
    UnarySteps(Paren(Zeros(n)), 1);
  }

  lemma {:induction false} ZerosFacts(n: nat, at: nat)
    ensures Size(ZerosTree(n)) == 2 * n + 1 && LinksFit(ZerosTree(n)) && Eval(ZerosTree(n), at, true, Among([0]))
  {
    if n > 0 { ZerosFacts(n - 1, at); }
  }

  /** For every n this text is accepted and its query has 2 n + 3 items; from n = 16384 on its links do
      not fit, so that by MeaningIff it does not mean its tree. */
  lemma WideQueries(n: nat)
    ensures Compile(WideText(n)).Ok? && TreeOf(WideText(n)) == WideTree(n) && Size(WideTree(n)) == 2 * n + 3
    ensures LinksFit(WideTree(n)) <==> n < 16384
  {
    hide Compile, ZerosText, Zeros, WideText, ZerosTree;
    WideSpells(n);
    WideSpellsTree(n);
    ZerosFacts(n, 0);
    CompileIff(WideText(n));
    TreeOfPost(WideText(n));
    PostUnique(OrTree(Wide(n)), TreeOf(WideText(n)));
  }

  /** Where the parts of the query of 32769 zeros stand, and where its root's link points. */
  lemma WrappedParts(n: nat, items: seq<Item>)
    requires n == 32768 && Holds(items, 0, WideTree(n)) && |items| == Size(WideTree(n))
    ensures |items| == 65539 && items[0] == Item(VAL(1), 0) && items[65536] == Item(VAL(0), 0)
    ensures items[65538] == Item(OPR('&'), -2) && Holds(items, 1, ZerosTree(n))
  {
    hide Holds, ZerosTree, Size;
    ZerosSize(n);
    ZerosSize(n - 1);
    ZerosTreeStep(n);
    HoldsRoot(items, 0, WideTree(n));
    HoldsRoot(items, 0, Leaf(1));
    HoldsRoot(items, 1, ZerosTree(n));
    HoldsRoot(items, 65536, Leaf(0));
  }

  lemma ZerosSize(n: nat)
    ensures Size(ZerosTree(n)) == 2 * n + 1 && Size(WideTree(n)) == 2 * n + 3 && Size(Leaf(0)) == Size(Leaf(1)) == 1
  {
    ZerosFacts(n, 0);
  }

  lemma WrappedLinked(n: nat, items: seq<Item>)
    requires n == 32768 && Holds(items, 0, WideTree(n)) && |items| == Size(WideTree(n))
    ensures Linked(items)
  {
    hide Holds, ZerosTree, Size, LinksFit;
    WrappedParts(n, items);
    ZerosSize(n);
    ZerosFacts(n, 0);
    FittingLinks(items, 1, ZerosTree(n));
    assert LinkAt(items, 0) && LinkAt(items, 65538);
  }

  /** A concrete failure. With n = 32768 the link wraps around to the last of 32769 zeros, so the query of
      65539 items is well linked, but a row with 0 and without 1 matches 1 & ( 0 | ... | 0 ). */
  lemma WrappedQuery(n: nat, items: seq<Item>)
    requires n == 32768 && Holds(items, 0, WideTree(n)) && |items| == Size(WideTree(n))
    ensures Linked(items) && Execute(items, |items| - 1, true, Among([0])) && !Eval(WideTree(n), 0, true, Among([0]))
  {
    hide Holds, Execute, Eval, ZerosTree, Linked, LinksFit, Size;
    var chk := Among([0]);
    WrappedParts(n, items);
    WrappedLinked(n, items);
    ZerosSize(n);
    ZerosFacts(n, 1);
    ExecuteRoot(items, 65536, 65538, true, chk);
    ExecuteLeaf(items, 65536, true, chk);
    ExecuteIsEval(items, 1, 65537, ZerosTree(n), true, chk);
    EvalStep(WideTree(n), 0, true, chk);
    EvalStep(Leaf(1), 0, true, chk);
  }

  lemma ZerosTreeStep(n: nat)
    ensures n > 0 ==> ZerosTree(n) == Bin(false, ZerosTree(n - 1), Leaf(0))
  {
  }
}
