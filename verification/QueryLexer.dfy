/** The tokenizer of `query_int` text (contrib/intarray): characters to tokens. */
module QueryLexer {

  const BUFLEN := 16 // sizeof(nnn): the scratch buffer a number is collected in
  const INT32_MIN := -0x8000_0000
  const INT32_MAX := 0x7fff_ffff

  datatype Token = Val(v: int) | Opr(c: char) | Open | Close | End | Err

  /** The tokenizer's state between two calls; `buf` is the text not yet read.
      A NUL character ends the text, as the end of the string does. */
  datatype Lex = Lex(buf: string, operand: bool, count: int)

  predicate Digit(c: char) { '0' <= c <= '9' }

  function Peek(s: string): char { if |s| == 0 then '\0' else s[0] }

  predicate InInt32(v: int) { INT32_MIN <= v <= INT32_MAX }

  function SkipSpaces(s: string): (r: string)
    ensures |r| <= |s| && Peek(r) != ' '
  {
    if Peek(s) == ' ' then SkipSpaces(s[1..]) else s
  }

  /** Length of the run of digits that `s` starts with. */
  function DigitRun(s: string): (n: nat)
    ensures n <= |s|
    ensures forall i :: 0 <= i < n ==> Digit(s[i])
    ensures n < |s| ==> !Digit(s[n])
  {
    if Digit(Peek(s)) then 1 + DigitRun(s[1..]) else 0
  }

  function DigitsValue(s: string, base: nat): int
  {
    if |s| == 0 then 0 else base * DigitsValue(s[..|s| - 1], base) + (s[|s| - 1] as int - '0' as int)
  }

  function OctalRun(s: string): (n: nat)
    ensures n <= |s|
  {
    if '0' <= Peek(s) <= '7' then 1 + OctalRun(s[1..]) else 0
  }

  /** strtol with base 0 on a run of digits: a leading 0 selects octal. */
  function Magnitude(s: string): int {
    if Peek(s) == '0' then DigitsValue(s[..OctalRun(s)], 8) else DigitsValue(s, 10)
  }

  /** strtol with base 0 on an optional minus sign followed by digits; no digits give 0. */
  function Strtol(s: string): int {
    if Peek(s) == '-' then -Magnitude(s[1..]) else Magnitude(s)
  }

  /** What the tokenizer returns for the number that `b` starts with. */
  function NumberToken(b: string, count: int): (r: (Token, Lex))
    requires |b| > 0
    ensures r.0 != Err ==> |r.1.buf| < |b|
  {
    var n := 1 + DigitRun(b[1..]);
    var rest := b[n..];
    var v := Strtol(b[..n]);
    if n >= BUFLEN || !InInt32(v) || (count != 0 && Peek(rest) == '\0') then (Err, Lex(b, true, count))
    else (Val(v), Lex(rest, false, count))
  }

  /** One call of the tokenizer. The state left behind by an error is never used again. */
  function NextToken(s: Lex): (r: (Token, Lex))
    ensures r.0 != Err && r.0 != End ==> |r.1.buf| < |s.buf|
  {
    var b := SkipSpaces(s.buf);
    var c := Peek(b);
    if s.operand then
      if Digit(c) || c == '-' then NumberToken(b, s.count)
      else if c == '!' then (Opr('!'), Lex(b[1..], true, s.count))
      else if c == '(' then (Open, Lex(b[1..], true, s.count + 1))
      else (Err, s)
    else
      if c == '&' || c == '|' then (Opr(c), Lex(b[1..], true, s.count))
      else if c == ')' then
        if s.count - 1 < 0 then (Err, s) else (Close, Lex(b[1..], false, s.count - 1))
      else if c == '\0' then
        if s.count != 0 then (Err, s) else (End, Lex(b, false, s.count))
      else (Err, s)
  }

  /** Every token the text gives, up to and including the first End or Err. */
  function Stream(s: Lex): (ts: seq<Token>)
    ensures |ts| > 0
    decreases |s.buf|
  {
    var (t, s') := NextToken(s);
    if t == End || t == Err then [t] else [t] + Stream(s')
  }

  function Start(text: string): Lex { Lex(text, true, 0) }

  // ----- printed numbers -----

  function Decimal(n: nat): (s: string)
    ensures |s| > 0
  {
    if n < 10 then [('0' as int + n) as char] else Decimal(n / 10) + [('0' as int + n % 10) as char]
  }

  /** sprintf's %d */
  function PrintInt(v: int): string { if v < 0 then "-" + Decimal(-v) else Decimal(v) }

  lemma {:induction false} DecimalRoundTrip(n: nat)
    ensures DigitsValue(Decimal(n), 10) == n
    ensures forall c | c in Decimal(n) :: Digit(c)
    ensures n > 0 ==> Decimal(n)[0] != '0'
  {
    if n < 10 {
      var s := Decimal(n);
      assert s[..0] == "" && DigitsValue("", 10) == 0;
    } else {
      DecimalRoundTrip(n / 10);
      var s := Decimal(n);
      assert s[..|s| - 1] == Decimal(n / 10);
    }
  }

  lemma {:induction false} DecimalLength(n: nat, d: nat)
    requires n < Pow10(d) && d > 0
    ensures |Decimal(n)| <= d
  {
    if n >= 10 {
      assert d > 1;
      DecimalLength(n / 10, d - 1);
    }
  }

  function Pow10(d: nat): nat { if d == 0 then 1 else 10 * Pow10(d - 1) }

  /** Printing an int32 and reading it back with strtol's base 0 gives the same value:
      a printed decimal never starts with a superfluous 0, so it is never taken for octal. */
  lemma PrintedNumber(v: int)
    requires InInt32(v)
    ensures Strtol(PrintInt(v)) == v
    ensures |PrintInt(v)| <= 11 && (Digit(PrintInt(v)[0]) || PrintInt(v)[0] == '-')
    ensures forall c | c in PrintInt(v)[1..] :: Digit(c)
  {
    var m: nat := if v < 0 then -v else v;
    var s := Decimal(m);
    DecimalRoundTrip(m);
    assert Pow10(10) == 10_000_000_000 by {
      assert Pow10(2) == 100; assert Pow10(4) == 10_000; assert Pow10(6) == 1_000_000; assert Pow10(8) == 100_000_000;
    }
    DecimalLength(m, 10);
    assert Digit(s[0]);
    if m == 0 {
      assert s == "0";
      assert OctalRun(s) == 1 by { assert s[1..] == ""; }
      assert s[..1] == s && s[..0] == "";
      assert DigitsValue("", 8) == 0;
      assert DigitsValue(s, 8) == 0;
    }
    assert Magnitude(s) == m;
    if v < 0 {
      assert PrintInt(v)[1..] == s;
    }
  }

  lemma {:induction false} DigitRunOf(ds: string, rest: string)
    requires forall c | c in ds :: Digit(c)
    requires !Digit(Peek(rest))
    ensures DigitRun(ds + rest) == |ds|
  {
    if ds == "" {
      assert ds + rest == rest;
    } else {
      assert (ds + rest)[1..] == ds[1..] + rest;
      DigitRunOf(ds[1..], rest);
    }
  }

  /** A printed int32 is one token, wherever it stands in the text. */
  lemma PrintedNumberToken(v: int, rest: string, count: int)
    requires InInt32(v) && !Digit(Peek(rest))
    requires count != 0 ==> Peek(rest) != '\0'
    ensures NextToken(Lex(PrintInt(v) + rest, true, count)) == (Val(v), Lex(rest, false, count))
  {
    var p := PrintInt(v);
    var b := p + rest;
    PrintedNumber(v);
    assert b[0] == p[0];
    assert SkipSpaces(b) == b;
    assert b[1..] == p[1..] + rest;
    DigitRunOf(p[1..], rest);
    assert 1 + DigitRun(b[1..]) == |p|;
    assert b[..|p|] == p && b[|p|..] == rest;
  }
}
