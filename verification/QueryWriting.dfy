/** How query text is written, without regard to how it is read: the tokenizer's result is exactly the
    tokens that the text writes. */
module QueryWriting {
  import opened QueryLexer
  import opened QueryGrammar

  // ----- numbers -----

  /** The value of digits read from the left. */
  function Horner(ds: string, base: nat, sofar: int): int {
    if |ds| == 0 then sofar else Horner(ds[1..], base, base * sofar + (ds[0] as int - '0' as int))
  }

  predicate Octal(c: char) { '0' <= c <= '7' }

  /** Digits in decimal, or in octal after a leading 0: then a digit of 8 or 9 ends the number. */
  ghost predicate Denotes(ds: string, v: int) {
    if |ds| > 0 && ds[0] == '0'
    then exists k :: 0 <= k <= |ds| && IsOctalPart(ds, k) && v == Horner(ds[..k], 8, 0)
    else v == Horner(ds, 10, 0)
  }

  predicate IsOctalPart(ds: string, k: nat)
    requires k <= |ds|
  {
    (forall i | 0 <= i < k :: Octal(ds[i])) && (k < |ds| ==> ds[k] == '8' || ds[k] == '9')
  }

  predicate AllDigits(ds: string) { forall i | 0 <= i < |ds| :: '0' <= ds[i] <= '9' }

  /** At most 15 characters: digits, or a minus sign and then digits or nothing, within an int32. */
  ghost predicate WritesNumber(w: string, v: int) {
    && 1 <= |w| <= 15 && -0x8000_0000 <= v <= 0x7fff_ffff
    && if w[0] == '-' then AllDigits(w[1..]) && Denotes(w[1..], -v) else AllDigits(w) && Denotes(w, v)
  }

  // ----- texts -----

  /** One token as it stands in a text; the end of the text, or a zero character and anything after it,
      writes its end. */
  ghost predicate WritesToken(w: string, t: Token) {
    match t
    case Val(v) => WritesNumber(w, v)
    case Opr(c) => w == [c]
    case Open => w == "("
    case Close => w == ")"
    case End => w == "" || w[0] == '\0'
    case Err => false
  }

  predicate Blank(s: string) { forall i | 0 <= i < |s| :: s[i] == ' ' }

  /** The text is the tokens in order, with any number of spaces before each. */
  ghost predicate Writes(text: string, ts: seq<Token>)
    decreases |ts|
  {
    if |ts| == 0 then text == "" else
    exists i, j :: 0 <= i <= j <= |text| && WritesFirst(text, i, j, ts[0]) && Writes(text[j..], ts[1..])
  }

  ghost predicate WritesFirst(text: string, i: nat, j: nat, t: Token)
    requires i <= j <= |text|
  {
    Blank(text[..i]) && WritesToken(text[i..j], t)
  }

  // ----- values -----

  lemma {:induction false} HornerLast(ds: string, base: nat, sofar: int)
    requires |ds| > 0
    ensures Horner(ds, base, sofar) == base * Horner(ds[..|ds| - 1], base, sofar) + (ds[|ds| - 1] as int - '0' as int)
    decreases |ds|
  {
    if |ds| > 1 {
      HornerLast(ds[1..], base, base * sofar + (ds[0] as int - '0' as int));
      assert ds[1..][..|ds| - 2] == ds[..|ds| - 1][1..];
    }
  }

  lemma {:induction false} HornerIsValue(ds: string, base: nat)
    ensures Horner(ds, base, 0) == DigitsValue(ds, base)
    decreases |ds|
  {
    if |ds| > 0 {
      HornerLast(ds, base, 0);
      HornerIsValue(ds[..|ds| - 1], base);
    }
  }

  lemma {:induction false} OctalRunIs(ds: string)
    requires AllDigits(ds)
    ensures IsOctalPart(ds, OctalRun(ds)) && forall k | 0 <= k <= |ds| && IsOctalPart(ds, k) :: k == OctalRun(ds)
    decreases |ds|
  {
    if |ds| > 0 && Octal(ds[0]) {
      OctalRunIs(ds[1..]);
      forall k | 0 <= k <= |ds| && IsOctalPart(ds, k) ensures k == OctalRun(ds) {
        if k > 0 { assert IsOctalPart(ds[1..], k - 1); }
      }
    } else if |ds| > 0 {
      assert ds[0] in ds;
    }
  }

  lemma DenotesIff(ds: string, v: int)
    requires AllDigits(ds)
    ensures Denotes(ds, v) <==> v == Magnitude(ds)
  {
    OctalRunIs(ds);
    HornerIsValue(ds, 10);
    HornerIsValue(ds[..OctalRun(ds)], 8);
  }

  lemma NumberIff(w: string, v: int)
    requires |w| > 0 && (w[0] == '-' || Digit(w[0])) && AllDigits(w[1..])
    ensures WritesNumber(w, v) <==> |w| < BUFLEN && InInt32(v) && v == Strtol(w)
  {
    if w[0] == '-' {
      DenotesIff(w[1..], -v);
    } else {
      assert w == [w[0]] + w[1..];
      DenotesIff(w, v);
    }
  }

  // ----- one token -----

  lemma {:induction false} SkipBlank(text: string, i: nat)
    requires i <= |text| && Blank(text[..i]) && Peek(text[i..]) != ' '
    ensures SkipSpaces(text) == text[i..]
    decreases i
  {
    if i > 0 {
      assert text[0] == text[..i][0];
      assert text[1..][..i - 1] == text[..i][1..] && text[1..][i - 1..] == text[i..];
      SkipBlank(text[1..], i - 1);
    } else {
      assert text[0..] == text;
    }
  }

  lemma {:induction false} SkippedBlank(text: string) returns (i: nat)
    ensures i <= |text| && Blank(text[..i]) && SkipSpaces(text) == text[i..]
    decreases |text|
  {
    if Peek(text) == ' ' {
      var k := SkippedBlank(text[1..]);
      i := k + 1;
      assert text[1..][k..] == text[i..];
      assert text[..i] == [' '] + text[1..][..k];
    } else {
      i := 0;
      assert text[0..] == text;
    }
  }

  /** What may come next, and the state after it. */
  predicate Allowed(t: Token, operand: bool, open: nat, after: Lex) {
    match t
    case Val(_) => operand && !after.operand && after.count == open
    case Opr(c) => c in "!&|" && operand == (c == '!') && after.operand && after.count == open
    case Open => operand && after.operand && after.count == open + 1
    case Close => !operand && open > 0 && !after.operand && after.count == open - 1
    case End => !operand && open == 0 && !after.operand && after.count == 0
    case Err => false
  }

  /** A written token, allowed where it stands and not followed by a digit if a number, is what the
      tokenizer returns. */
  lemma WrittenToken(text: string, i: nat, j: nat, t: Token, operand: bool, open: nat, after: Lex)
    requires i <= j <= |text| && WritesFirst(text, i, j, t) && Allowed(t, operand, open, after)
    requires if t == End then j == |text| && after.buf == text[i..] else after.buf == text[j..]
    requires t.Val? ==> !Digit(Peek(text[j..])) && (open > 0 ==> Peek(text[j..]) != '\0')
    ensures NextToken(Lex(text, operand, open)) == (t, after)
  {
    hide WritesNumber;
    var b, w := text[i..], text[i..j];
    assert b == w + text[j..];
    if |w| > 0 { assert b[0] == w[0]; }
    if t.Val? {
      WrittenNumber(w, text[j..], t.v, open);
      SkipBlank(text, i);
    } else {
      SkipBlank(text, i);
      if t != End { assert b[1..] == text[j..]; }
    }
  }

  lemma WrittenNumber(w: string, rest: string, v: int, open: nat)
    requires WritesNumber(w, v) && !Digit(Peek(rest)) && (open > 0 ==> Peek(rest) != '\0')
    ensures (Digit(w[0]) || w[0] == '-') && NumberToken(w + rest, open) == (Val(v), Lex(rest, false, open))
  {
    var b := w + rest;
    assert AllDigits(w[1..]) by { if w[0] != '-' { assert forall k | 0 <= k < |w| - 1 :: w[1..][k] == w[k + 1]; } }
    NumberIff(w, v);
    assert b[1..] == w[1..] + rest;
    DigitRunOf(w[1..], rest);
    assert b[..|w|] == w && b[|w|..] == rest;
  }

  /** What the tokenizer returns, errors apart, stands written at the start of the text. */
  lemma ReadToken(text: string, operand: bool, open: nat) returns (i: nat, j: nat)
    requires NextToken(Lex(text, operand, open)).0 != Err
    ensures i <= j <= |text|
    ensures var (t, after) := NextToken(Lex(text, operand, open));
            && WritesFirst(text, i, j, t) && Allowed(t, operand, open, after)
            && if t == End then j == |text| else after.buf == text[j..]
  {
    hide WritesNumber, NumberToken;
    i := SkippedBlank(text);
    var b := text[i..];
    var t := NextToken(Lex(text, operand, open)).0;
    if operand && (Digit(Peek(b)) || Peek(b) == '-') {
      var n := ReadNumber(b, open);
      j := i + n;
      assert text[i..j] == b[..n] && text[j..] == b[n..];
    } else if t == End {
      j := |text|;
      assert text[i..j] == b;
    } else {
      j := i + 1;
      assert text[i..j] == [b[0]] && text[j..] == b[1..];
    }
  }

  lemma ReadNumber(b: string, open: nat) returns (n: nat)
    requires |b| > 0 && (Digit(b[0]) || b[0] == '-') && NumberToken(b, open).0 != Err
    ensures n <= |b| && NumberToken(b, open).0.Val? && WritesNumber(b[..n], NumberToken(b, open).0.v)
    ensures NumberToken(b, open).1 == Lex(b[n..], false, open)
  {
    n := 1 + DigitRun(b[1..]);
    var w := b[..n];
    assert w[1..] == b[1..][..n - 1];
    NumberIff(w, NumberToken(b, open).0.v);
  }

  // ----- whole texts -----

  lemma FirstChar(text: string, i: nat, j: nat, t: Token)
    requires i <= j <= |text| && WritesFirst(text, i, j, t) && !t.Val?
    ensures i > 0 ==> Peek(text) == ' '
    ensures i == 0 ==> match t
                       case Opr(c) => Peek(text) == c
                       case Open => Peek(text) == '('
                       case Close => Peek(text) == ')'
                       case _ => j == 0 || Peek(text) == '\0'
  {
    if i > 0 {
      assert text[0] == text[..i][0];
    } else if j > 0 {
      assert text[0] == text[i..j][0];
    }
  }

  /** Whatever can follow a number does not start with a digit, nor with the end while a parenthesis is
      open. */
  lemma AfterNumber(text: string, ts: seq<Token>, open: nat)
    requires Writes(text, ts) && WellLexed(ts, false, open)
    ensures !Digit(Peek(text)) && (open > 0 ==> Peek(text) != '\0')
  {
    var i, j :| 0 <= i <= j <= |text| && WritesFirst(text, i, j, ts[0]) && Writes(text[j..], ts[1..]);
    FirstChar(text, i, j, ts[0]);
  }

  /** The tokens of a text up to a proper end are ts if and only if the text writes ts and they are in
      order. */
  lemma {:induction false} StreamIff(text: string, operand: bool, open: nat, ts: seq<Token>)
    ensures Stream(Lex(text, operand, open)) == ts && ts[|ts| - 1] == End <==>
            WellLexed(ts, operand, open) && Writes(text, ts)
    decreases |ts|
  {
    hide NextToken, WritesFirst;
    if WellLexed(ts, operand, open) && Writes(text, ts) { WrittenIsRead(text, operand, open, ts); }
    if Stream(Lex(text, operand, open)) == ts && ts[|ts| - 1] == End { ReadIsWritten(text, operand, open, ts); }
  }

  function StateAfter(text: string, i: nat, j: nat, t: Token, operand: bool, open: nat): Lex
    requires i <= j <= |text|
  {
    match t
    case End => Lex(text[i..], false, 0)
    case Open => Lex(text[j..], true, open + 1)
    case Close => Lex(text[j..], false, open - 1)
    case Opr(_) => Lex(text[j..], true, open)
    case _ => Lex(text[j..], false, open)
  }

  lemma {:induction false} WrittenIsRead(text: string, operand: bool, open: nat, ts: seq<Token>)
    requires WellLexed(ts, operand, open) && Writes(text, ts)
    ensures Stream(Lex(text, operand, open)) == ts && ts[|ts| - 1] == End
    decreases |ts|
  {
    hide NextToken, WritesFirst;
    var i, j :| 0 <= i <= j <= |text| && WritesFirst(text, i, j, ts[0]) && Writes(text[j..], ts[1..]);
    if ts[0].Val? { AfterNumber(text[j..], ts[1..], open); }
    var s := StateAfter(text, i, j, ts[0], operand, open);
    WrittenToken(text, i, j, ts[0], operand, open, s);
    if ts[0] != End { WrittenIsRead(text[j..], s.operand, s.count, ts[1..]); }
  }

  lemma {:induction false} ReadIsWritten(text: string, operand: bool, open: nat, ts: seq<Token>)
    requires Stream(Lex(text, operand, open)) == ts && ts[|ts| - 1] == End
    ensures WellLexed(ts, operand, open) && Writes(text, ts)
    decreases |ts|
  {
    hide NextToken, WritesFirst;
    var (t, s) := NextToken(Lex(text, operand, open));
    var i, j := ReadToken(text, operand, open);
    if t != End {
      assert ts[1..] == Stream(s);
      ReadIsWritten(text[j..], s.operand, s.count, ts[1..]);
    }
  }

  // ----- expressions -----

  lemma OperatorInOrder(c: char, ts: seq<Token>, open: nat)
    requires WellLexed(ts, true, open) && c in "&|"
    ensures WellLexed([Opr(c)] + ts, false, open)
  {
    assert ([Opr(c)] + ts)[1..] == ts;
  }

  lemma {:induction false} OrInOrder(o: OrExpr, rest: seq<Token>, open: nat)
    requires WellLexed(rest, false, open)
    ensures WellLexed(OrTokens(o) + rest, true, open)
    decreases o
  {
    hide WellLexed;
    match o
    case Term(a) => AndInOrder(a, rest, open);
    case Alt(p, a) =>
      AndInOrder(a, rest, open);
      var more := [Opr('|')] + (AndTokens(a) + rest);
      OperatorInOrder('|', AndTokens(a) + rest, open);
      OrInOrder(p, more, open);
      assert OrTokens(o) + rest == OrTokens(p) + more;
  }

  lemma {:induction false} AndInOrder(a: AndExpr, rest: seq<Token>, open: nat)
    requires WellLexed(rest, false, open)
    ensures WellLexed(AndTokens(a) + rest, true, open)
    decreases a
  {
    hide WellLexed;
    match a
    case Factor(u) => UnaryInOrder(u, rest, open);
    case Conj(b, u) =>
      UnaryInOrder(u, rest, open);
      var more := [Opr('&')] + (UnaryTokens(u) + rest);
      OperatorInOrder('&', UnaryTokens(u) + rest, open);
      AndInOrder(b, more, open);
      assert AndTokens(a) + rest == AndTokens(b) + more;
  }

  lemma OperandInOrder(t: Token, ts: seq<Token>, open: nat)
    requires match t
             case Val(_) => WellLexed(ts, false, open)
             case Opr(c) => c == '!' && WellLexed(ts, true, open)
             case Open => WellLexed(ts, true, open + 1)
             case _ => false
    ensures WellLexed([t] + ts, true, open)
  {
    assert ([t] + ts)[1..] == ts;
  }

  lemma ClosingInOrder(ts: seq<Token>, open: nat)
    requires WellLexed(ts, false, open)
    ensures WellLexed([Close] + ts, false, open + 1)
  {
    assert ([Close] + ts)[1..] == ts;
  }

  lemma {:induction false} UnaryInOrder(u: Unary, rest: seq<Token>, open: nat)
    requires WellLexed(rest, false, open)
    ensures WellLexed(UnaryTokens(u) + rest, true, open)
    decreases u
  {
    hide WellLexed;
    match u
    case Num(v) => OperandInOrder(Val(v), rest, open);
    case Not(w) =>
      UnaryInOrder(w, rest, open);
      OperandInOrder(Opr('!'), UnaryTokens(w) + rest, open);
      assert UnaryTokens(u) + rest == [Opr('!')] + (UnaryTokens(w) + rest);
    case Paren(o) =>
      ClosingInOrder(rest, open);
      OrInOrder(o, [Close] + rest, open + 1);
      OperandInOrder(Open, OrTokens(o) + ([Close] + rest), open);
      assert UnaryTokens(u) + rest == [Open] + (OrTokens(o) + ([Close] + rest));
  }

  /** A text spells an expression if and only if it writes the expression's tokens and its end. */
  lemma SpellsIff(text: string, o: OrExpr)
    ensures Spells(text, o) <==> Writes(text, OrTokens(o) + [End])
  {
    var ts := OrTokens(o) + [End];
    OrInOrder(o, [End], 0);
    StreamIff(text, true, 0, ts);
  }

  /** makepol accepts exactly the texts that write an expression within the limit of pending operators. */
  lemma CompileWrittenIff(text: string)
    ensures Compile(text).Ok? <==> exists o :: Writes(text, OrTokens(o) + [End]) && OrPeak(o) <= STACKDEPTH
    ensures forall o | Writes(text, OrTokens(o) + [End]) && OrPeak(o) <= STACKDEPTH ::
              Compile(text) == Ok(Post(OrTree(o)), [])
  {
    hide Compile, Spells, Writes;
    CompileIff(text);
    forall o ensures Spells(text, o) <==> Writes(text, OrTokens(o) + [End]) { SpellsIff(text, o); }
  }
}
