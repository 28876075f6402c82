/** Compiled queries: the item array with back links, its evaluator, and what index searches need of it. */
module QueryEval {
  import opened QueryLexer
  import opened QueryGrammar

  /** ITEM: `left` is the stored 16-bit distance to the left operand. */
  datatype Item = Item(node: Node, left: int)

  /** A test of a value item, given the item's position and its value (chkcond). */
  type Check = (nat, int) -> bool

  /** Conversion to int16, as the assignment to ITEM.left does it. */
  function Int16(x: int): int { (x + 0x8000) % 0x1_0000 - 0x8000 }

  lemma SmallInt16(x: int)
    requires -0x8000 <= x < 0x8000
    ensures Int16(x) == x
  {
  }

  predicate LinkAt(items: seq<Item>, i: nat)
    requires i < |items|
  {
    match items[i].node
    case VAL(_) => true
    case OPR(c) => i >= 1 && (c != '!' ==> 0 <= i + items[i].left < i)
  }

  /** Every link stays inside the array and points to an earlier item. */
  predicate Linked(items: seq<Item>) { forall i | 0 <= i < |items| :: LinkAt(items, i) }

  function Execute(items: seq<Item>, cur: nat, calcnot: bool, chk: Check): bool
    requires Linked(items) && cur < |items|
    decreases cur
  {
    assert LinkAt(items, cur);
    match items[cur].node
    case VAL(v) => chk(cur, v)
    case OPR(c) =>
      if c == '!' then
        if calcnot then (if Execute(items, cur - 1, calcnot, chk) then false else true) else true
      else if c == '&' then
        if Execute(items, cur + items[cur].left, calcnot, chk) then Execute(items, cur - 1, calcnot, chk) else false
      else
        if Execute(items, cur + items[cur].left, calcnot, chk) then true else Execute(items, cur - 1, calcnot, chk)
  }

  // ----- the linked postfix of a tree -----

  /** `items` holds the postfix of `t` from position `at` on, with the links findoprnd stores. */
  predicate Holds(items: seq<Item>, at: nat, t: Tree)
    decreases t
  {
    at + Size(t) <= |items| &&
    match t
    case Leaf(v) => items[at] == Item(VAL(v), 0)
    case Neg(u) => Holds(items, at, u) && items[at + Size(u)] == Item(OPR('!'), -1)
    case Bin(conj, l, r) =>
      Holds(items, at, l) && Holds(items, at + Size(l), r) &&
      items[at + Size(l) + Size(r)] == Item(OPR(Sign(conj)), Int16(-1 - Size(r)))
  }

  /** Every operator's link is the true distance to the root of its left operand. */
  predicate LinksExact(items: seq<Item>, at: nat, t: Tree)
    decreases t
  {
    at + Size(t) <= |items| &&
    match t
    case Leaf(_) => true
    case Neg(u) => LinksExact(items, at, u)
    case Bin(_, l, r) =>
      LinksExact(items, at, l) && LinksExact(items, at + Size(l), r)
      && items[at + Size(l) + Size(r)].left == -1 - Size(r)
  }

  const MAXRIGHT := 32767

  /** No right operand has more than 32767 items. */
  predicate LinksFit(t: Tree) {
    match t
    case Leaf(_) => true
    case Neg(u) => LinksFit(u)
    case Bin(_, l, r) => LinksFit(l) && LinksFit(r) && Size(r) <= MAXRIGHT
  }

  lemma {:induction false} SmallQueriesFit(t: Tree)
    requires Size(t) <= 32768
    ensures LinksFit(t)
  {
    match t
    case Leaf(_) =>
    case Neg(u) => SmallQueriesFit(u);
    case Bin(_, l, r) => SmallQueriesFit(l); SmallQueriesFit(r);
  }

  /** The 16-bit links are the true distances on exactly the queries whose right operands fit. */
  lemma {:induction false} LinksExactIff(items: seq<Item>, at: nat, t: Tree)
    requires Holds(items, at, t)
    ensures LinksExact(items, at, t) <==> LinksFit(t)
    decreases t
  {
    match t
    case Leaf(_) =>
    case Neg(u) => LinksExactIff(items, at, u);
    case Bin(_, l, r) => LinksExactIff(items, at, l); LinksExactIff(items, at + Size(l), r);
  }

  /** Above any left operand, a right operand of 32768 to 65535 items makes the root's stored
      link point at the root itself or behind it, outside the items of the query. */
  lemma WideRightOperandEscapes(items: seq<Item>, at: nat, conj: bool, l: Tree, r: Tree)
    requires Holds(items, at, Bin(conj, l, r)) && 32768 <= Size(r) <= 65535
    ensures items[at + Size(l) + Size(r)].left == 65535 - Size(r)
    ensures !LinkAt(items, at + Size(l) + Size(r)) && !Linked(items)
  {
    assert Int16(-1 - Size(r)) == 65535 - Size(r);
    assert !LinkAt(items, at + Size(l) + Size(r));
  }

  // ----- evaluation of the tree -----

  /** Direct evaluation; `at` is the position of the tree's first item. */
  function Eval(t: Tree, at: nat, calcnot: bool, chk: Check): bool {
    match t
    case Leaf(v) => chk(at, v)
    case Neg(u) => if calcnot then !Eval(u, at, calcnot, chk) else true
    case Bin(conj, l, r) =>
      var right := Eval(r, at + Size(l), calcnot, chk);
      if conj then Eval(l, at, calcnot, chk) && right else Eval(l, at, calcnot, chk) || right
  }

  /** The back-linked array evaluates as the tree does, for every check and both treatments of NOT. */
  lemma {:induction false} ExecuteIsEval(items: seq<Item>, at: nat, root: nat, t: Tree, calcnot: bool, chk: Check)
    requires Linked(items) && Holds(items, at, t) && LinksFit(t) && root == at + Size(t) - 1
    ensures Execute(items, root, calcnot, chk) == Eval(t, at, calcnot, chk)
    decreases t
  {
    hide Holds, Execute, Eval;
    HoldsRoot(items, at, t);
    EvalStep(t, at, calcnot, chk);
    match t
    case Leaf(v) =>
      ExecuteLeaf(items, root, calcnot, chk);
    case Neg(u) =>
      ExecuteIsEval(items, at, root - 1, u, calcnot, chk);
      ExecuteNot(items, root, calcnot, chk);
    case Bin(conj, l, r) =>
      var left, right := at + Size(l) - 1, at + Size(l);
      ExecuteIsEval(items, at, left, l, calcnot, chk);
      ExecuteIsEval(items, right, root - 1, r, calcnot, chk);
      SmallInt16(-1 - Size(r));
      ExecuteBinary(items, left, root, conj, calcnot, chk);
  }

  lemma HoldsRoot(items: seq<Item>, at: nat, t: Tree)
    requires Holds(items, at, t)
    ensures at + Size(t) <= |items|
    ensures var root := items[at + Size(t) - 1];
            match t
            case Leaf(v) => root == Item(VAL(v), 0)
            case Neg(u) => root == Item(OPR('!'), -1) && Holds(items, at, u)
            case Bin(conj, l, r) =>
              root == Item(OPR(Sign(conj)), Int16(-1 - Size(r))) && Holds(items, at, l) && Holds(items, at + Size(l), r)
  {
  }

  lemma EvalStep(t: Tree, at: nat, calcnot: bool, chk: Check)
    ensures Eval(t, at, calcnot, chk) ==
            match t
            case Leaf(v) => chk(at, v)
            case Neg(u) => if calcnot then !Eval(u, at, calcnot, chk) else true
            case Bin(conj, l, r) =>
              var a, b := Eval(l, at, calcnot, chk), Eval(r, at + Size(l), calcnot, chk);
              if conj then a && b else a || b
  {
  }

  lemma ExecuteLeaf(items: seq<Item>, root: nat, calcnot: bool, chk: Check)
    requires Linked(items) && root < |items| && items[root].node.VAL?
    ensures Execute(items, root, calcnot, chk) == chk(root, items[root].node.v)
  {
  }

  lemma ExecuteNot(items: seq<Item>, root: nat, calcnot: bool, chk: Check)
    requires Linked(items) && 0 < root < |items| && items[root].node == OPR('!')
    ensures Execute(items, root, calcnot, chk) == if calcnot then !Execute(items, root - 1, calcnot, chk) else true
  {
  }

  lemma ExecuteBinary(items: seq<Item>, left: nat, root: nat, conj: bool, calcnot: bool, chk: Check)
    requires Linked(items) && left < root < |items|
    requires items[root] == Item(OPR(Sign(conj)), left - root)
    ensures Execute(items, root, calcnot, chk) ==
            var a, b := Execute(items, left, calcnot, chk), Execute(items, root - 1, calcnot, chk);
            if conj then a && b else a || b
  {
  }

  /** Holding a tree depends on the tree's own items only. */
  lemma {:induction false} HoldsFrame(items: seq<Item>, at: nat, t: Tree, other: seq<Item>)
    requires Holds(items, at, t) && at + Size(t) <= |other|
    requires forall i | at <= i < at + Size(t) :: other[i] == items[i]
    ensures Holds(other, at, t)
    decreases t
  {
    match t
    case Leaf(v) =>
    case Neg(u) => HoldsFrame(items, at, u, other);
    case Bin(_, l, r) => HoldsFrame(items, at, l, other); HoldsFrame(items, at + Size(l), r, other);
  }

  /** The array of a query whose links fit is well linked. */
  lemma {:induction false} FittingLinks(items: seq<Item>, at: nat, t: Tree)
    requires Holds(items, at, t) && LinksFit(t)
    ensures forall i | at <= i < at + Size(t) :: LinkAt(items, i)
    decreases t
  {
    match t
    case Leaf(_) =>
    case Neg(u) => FittingLinks(items, at, u);
    case Bin(_, l, r) => FittingLinks(items, at, l); FittingLinks(items, at + Size(l), r);
  }

  // ----- index searches -----

  /** Index pruning: if every value the exact test accepts is accepted by a weaker test (a
      superset of the elements, or a hashed signature of one), evaluation that does not trust
      NOT is true whenever exact evaluation is. */
  lemma {:induction false} ApproximationKeepsMatches(items: seq<Item>, cur: nat, exact: Check, weak: Check)
    requires Linked(items) && cur < |items|
    requires forall p: nat, v :: exact(p, v) ==> weak(p, v)
    ensures Execute(items, cur, true, exact) ==> Execute(items, cur, false, weak)
    decreases cur
  {
    assert LinkAt(items, cur);
    match items[cur].node
    case VAL(_) =>
    case OPR(c) =>
      ApproximationKeepsMatches(items, cur - 1, exact, weak);
      if c != '!' { ApproximationKeepsMatches(items, cur + items[cur].left, exact, weak); }
  }

  /** contains_required_value */
  function ContainsRequiredValue(items: seq<Item>, cur: nat): bool
    requires Linked(items) && cur < |items|
    decreases cur
  {
    assert LinkAt(items, cur);
    match items[cur].node
    case VAL(_) => true
    case OPR(c) =>
      if c == '!' then false
      else if c == '&' then
        if ContainsRequiredValue(items, cur + items[cur].left) then true else ContainsRequiredValue(items, cur - 1)
      else
        if ContainsRequiredValue(items, cur + items[cur].left) then ContainsRequiredValue(items, cur - 1) else false
  }

  /** A query with a required value can only match a row that has one of the query's values, so
      a default-mode GIN search, which looks at no other rows, misses none. */
  lemma {:induction false} RequiredValueIsPresent(items: seq<Item>, cur: nat, chk: Check) returns (p: nat)
    requires Linked(items) && cur < |items|
    requires ContainsRequiredValue(items, cur) && Execute(items, cur, true, chk)
    ensures p <= cur && items[p].node.VAL? && chk(p, items[p].node.v)
    decreases cur
  {
    assert LinkAt(items, cur);
    match items[cur].node
    case VAL(_) => p := cur;
    case OPR(c) =>
      var left := cur + items[cur].left;
      if c == '&' {
        if ContainsRequiredValue(items, left) { p := RequiredValueIsPresent(items, left, chk); }
        else { p := RequiredValueIsPresent(items, cur - 1, chk); }
      } else {
        if Execute(items, left, true, chk) { p := RequiredValueIsPresent(items, left, chk); }
        else { p := RequiredValueIsPresent(items, cur - 1, chk); }
      }
  }

  /** A query has a required value exactly if a row without any of its values cannot match, as far as
      evaluation that does not trust NOT can tell. */
  lemma {:induction false} RequiredIff(items: seq<Item>, cur: nat)
    requires Linked(items) && cur < |items|
    ensures ContainsRequiredValue(items, cur) <==> !Execute(items, cur, false, (p, v) => false)
    decreases cur
  {
    assert LinkAt(items, cur);
    match items[cur].node
    case VAL(_) =>
    case OPR(c) =>
      RequiredIff(items, cur - 1);
      if c != '!' { RequiredIff(items, cur + items[cur].left); }
  }

  /** No NOT anywhere in the query. */
  predicate NotFree(items: seq<Item>) { forall i | 0 <= i < |items| :: items[i].node != OPR('!') }

  /** Without NOT both treatments of it agree. */
  lemma {:induction false} SameWithoutNot(items: seq<Item>, cur: nat, chk: Check)
    requires Linked(items) && cur < |items| && NotFree(items)
    ensures Execute(items, cur, false, chk) == Execute(items, cur, true, chk)
    decreases cur
  {
    assert LinkAt(items, cur);
    match items[cur].node
    case VAL(_) =>
    case OPR(c) =>
      SameWithoutNot(items, cur - 1, chk);
      if c != '!' { SameWithoutNot(items, cur + items[cur].left, chk); }
  }

  /** Number of value items among the first `n`. */
  function ValuesBefore(items: seq<Item>, n: nat): (k: nat)
    requires n <= |items|
    ensures k <= n
  {
    if n == 0 then 0 else ValuesBefore(items, n - 1) + (if items[n - 1].node.VAL? then 1 else 0)
  }

  lemma {:induction false} ValuesBeforeGrows(items: seq<Item>, i: nat, n: nat)
    requires i < n <= |items|
    ensures ValuesBefore(items, i) <= ValuesBefore(items, n)
    ensures items[i].node.VAL? ==> ValuesBefore(items, i) < ValuesBefore(items, n)
  {
    if i < n - 1 { ValuesBeforeGrows(items, i, n - 1); }
  }

  /** The entries GIN is asked to look up, in array order (ginint4_queryextract). */
  method QueryExtract(items: seq<Item>) returns (entries: seq<int>)
    ensures |entries| == ValuesBefore(items, |items|)
    ensures forall i | 0 <= i < |items| && items[i].node.VAL? ::
              ValuesBefore(items, i) < |entries| && entries[ValuesBefore(items, i)] == items[i].node.v
  {
    entries := [];
    for i := 0 to |items|
      invariant |entries| == ValuesBefore(items, i)
      invariant forall k | 0 <= k < i && items[k].node.VAL? ::
                  ValuesBefore(items, k) < |entries| && entries[ValuesBefore(items, k)] == items[k].node.v
    {
      if items[i].node.VAL? {
        entries := entries + [items[i].node.v];
      }
    }
  }

  /** The position-based test gin_bool_consistent evaluates with. */
  function Mapped(items: seq<Item>, check: seq<bool>): Check {
    (p: nat, v: int) => p < |items| && ValuesBefore(items, p) < |check| && check[ValuesBefore(items, p)]
  }

  method GinBoolConsistent(items: seq<Item>, check: seq<bool>) returns (r: bool)
    requires Linked(items) && |check| == ValuesBefore(items, |items|)
    ensures r <==> |items| > 0 && Execute(items, |items| - 1, true, Mapped(items, check))
  {
    if |items| <= 0 { return false; }
    var mapped := new bool[|items|](_ => false);
    var j := 0;
    for i := 0 to |items|
      invariant j == ValuesBefore(items, i)
      invariant forall k | 0 <= k < i && items[k].node.VAL? ::
                  ValuesBefore(items, k) < |check| && mapped[k] == check[ValuesBefore(items, k)]
    {
      ValuesBeforeGrows(items, i, |items|);
      if items[i].node.VAL? {
        mapped[i] := check[j];
        j := j + 1;
      }
    }
    var m := mapped[..];
    var test: Check := (p: nat, v: int) => p < |m| && m[p];
    forall k: nat | k < |items| && items[k].node.VAL?
      ensures test(k, items[k].node.v) == Mapped(items, check)(k, items[k].node.v)
    {
      ValuesBeforeGrows(items, k, |items|);
    }
    ExecuteAgrees(items, |items| - 1, test, Mapped(items, check));
    r := Execute(items, |items| - 1, true, test);
  }

  lemma {:induction false} ExecuteAgrees(items: seq<Item>, cur: nat, f: Check, g: Check)
    requires Linked(items) && cur < |items|
    requires forall p: nat | p < |items| && items[p].node.VAL? :: f(p, items[p].node.v) == g(p, items[p].node.v)
    ensures Execute(items, cur, true, f) == Execute(items, cur, true, g)
    decreases cur
  {
    assert LinkAt(items, cur);
    match items[cur].node
    case VAL(_) =>
    case OPR(c) =>
      ExecuteAgrees(items, cur - 1, f, g);
      if c != '!' { ExecuteAgrees(items, cur + items[cur].left, f, g); }
  }

  /** Membership as boolop tests it. */
  function Among(s: seq<int>): Check { (p, v) => v in s }

  /** With check bits that say, in extraction order, which entries the row has, the GIN answer is
      boolop's answer on the row. */
  lemma GinIsExact(items: seq<Item>, entries: seq<int>, check: seq<bool>, row: seq<int>)
    requires Linked(items) && |items| > 0 && |check| == |entries| == ValuesBefore(items, |items|)
    requires forall i | 0 <= i < |items| && items[i].node.VAL? ::
               ValuesBefore(items, i) < |entries| && entries[ValuesBefore(items, i)] == items[i].node.v
    requires forall j | 0 <= j < |entries| :: check[j] == (entries[j] in row)
    ensures Execute(items, |items| - 1, true, Mapped(items, check)) == Execute(items, |items| - 1, true, Among(row))
  {
    ExecuteAgrees(items, |items| - 1, Mapped(items, check), Among(row));
  }

  predicate Sorted(s: seq<int>) { forall i, j | 0 <= i < j < |s| :: s[i] <= s[j] }

  /** checkcondition_arr */
  method CheckConditionArr(arr: seq<int>, val: int) returns (found: bool)
    requires Sorted(arr)
    ensures found <==> val in arr
  {
    var low, high := 0, |arr|;
    while low < high
      invariant 0 <= low <= high <= |arr|
      invariant forall i | 0 <= i < low :: arr[i] < val
      invariant forall i | high <= i < |arr| :: arr[i] > val
    {
      var middle := low + (high - low) / 2;
      if arr[middle] == val {
        return true;
      } else if arr[middle] < val {
        low := middle + 1;
      } else {
        high := middle;
      }
    }
    found := false;
  }
}
