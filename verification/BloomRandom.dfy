/** The Park-Miller generator that spreads hashed values over signature bits. */
module BloomRandom {

  newtype int32 = x: int | -0x8000_0000 <= x < 0x8000_0000

  type uint32 = x: int | 0 <= x < 0x1_0000_0000

  const M := 0x7FFF_FFFF
  const A := 16807
  const INVERSE := 1407677000 // of A, modulo M

  // C's division and remainder: towards zero

  function Div(a: int, b: int): int
    requires b > 0
  {
    if a >= 0 then a / b else -((-a) / b)
  }

  function Rem(a: int, b: int): int
    requires b > 0
  {
    a - b * Div(a, b)
  }

  /** Conversion of uint32 to int32 */
  function ToInt32(u: uint32): int { if u < 0x8000_0000 then u else u - 0x1_0000_0000 }

  /** The recurrence of Park and Miller. */
  function NextState(s: int): (n: int)
    ensures 0 <= n < M
  {
    (A * s) % M
  }

  /** Division by 127773 in the generator, with what it leaves. */
  lemma HiLo(s: int)
    requires -0x8000_0000 <= s < 0x8000_0000
    ensures var hi, lo := Div(s, 127773), Rem(s, 127773);
            && s == 127773 * hi + lo && -16807 <= hi <= 16807 && -127773 < lo < 127773
            && (s >= 0 ==> hi >= 0 && lo >= 0) && (s <= 0 ==> hi <= 0 && lo <= 0)
  {
  }

  /** A * lo - 2836 * hi is A * s less a multiple of the modulus. */
  lemma Schrage(s: int, hi: int, lo: int)
    requires s == 127773 * hi + lo && -M < A * lo - 2836 * hi < M
    ensures var x := A * lo - 2836 * hi;
            NextState(s) == if x < 0 then x + M else x
  {
    var x := A * lo - 2836 * hi;
    assert A * s == x + M * hi;
    ModUnique(A * s, hi, x);
    ModUnique(A * s, hi - 1, x + M);
  }

  lemma ModUnique(a: int, q: int, r: int)
    requires a == M * q + r
    ensures 0 <= r < M ==> a % M == r
  {
  }

  class Generator {
    var next: int32

    constructor ()
      ensures next == 0
    {
      next := 0;
    }

    /** mySrand: its comment wants a state from 1 to 2^31 - 2, and two seeds leave the dead state 0. */
    method MySrand(seed: uint32)
      modifies this
      ensures next as int == Seeded(seed)
      ensures 1 <= next <= 0x7FFF_FFFE <==> seed < 0x8000_0000 || seed == 0x8000_0002
      ensures next == 0 <==> seed == 0xFFFF_FFFF || seed == 0x8000_0001
    {
      next := ToInt32(seed) as int32;
      next := Rem(next as int, 0x7FFF_FFFE) as int32 + 1;
      SeedRange(seed);
    }

    /** myRand: one step of the recurrence, from any state, and its result less one. Every intermediate
        value is an int32, so nothing overflows. */
    method MyRand() returns (r: int32)
      modifies this
      ensures next as int == NextState(old(next) as int) && r == next - 1
    {
      HiLo(next as int);
      var hi, lo := Div(next as int, 127773) as int32, Rem(next as int, 127773) as int32;
      var x: int32 := 16807 * lo - 2836 * hi;
      Schrage(next as int, hi as int, lo as int);
      if x < 0 {
        x := x + 0x7FFF_FFFF;
      }
      next := x;
      return x - 1;
    }
  }

  /** The state after mySrand. */
  function Seeded(seed: uint32): (s: int)
    ensures -0x7FFF_FFFE < s <= 0x7FFF_FFFE
  {
    Rem(ToInt32(seed), 0x7FFF_FFFE) + 1
  }

  /** The state after k draws. */
  function StateAfter(s: int, k: nat): int { if k == 0 then s else NextState(StateAfter(s, k - 1)) }

  /** The k-th draw after seeding, counting from 0. */
  function Draw(seed: uint32, k: nat): int { StateAfter(Seeded(seed), k + 1) - 1 }

  // ----- which seeds keep the draws in range -----

  /** Multiplication by A can be undone, so only multiples of the modulus become 0. */
  lemma ZeroFromZero(s: int)
    ensures NextState(s) == 0 <==> s % M == 0
  {
    var q, r := s / M, s % M;
    assert s == M * q + r;
    var p := A * s / M;
    if NextState(s) == 0 {
      assert A * s == M * p;
      assert INVERSE * A == 1 + M * 11017;
      assert INVERSE * (A * s) == s + M * (11017 * s);
      assert s == M * (INVERSE * p - 11017 * s);
      ModUnique(s, INVERSE * p - 11017 * s, 0);
    }
    if s % M == 0 {
      assert A * s == M * (A * q);
      ModUnique(A * s, A * q, 0);
    }
  }

  lemma {:induction false} ZeroStays(s: int, k: nat)
    requires -M < s < M
    ensures StateAfter(s, k) == 0 <==> s == 0
    ensures k > 0 ==> 0 <= StateAfter(s, k) < M
  {
    if k > 0 {
      ZeroStays(s, k - 1);
      ZeroFromZero(StateAfter(s, k - 1));
    }
  }

  /** The range that mySrand's comment states holds exactly for the seeds below 2^31 and one more. */
  lemma SeedRange(seed: uint32)
    ensures 1 <= Seeded(seed) <= 0x7FFF_FFFE <==> seed < 0x8000_0000 || seed == 0x8000_0002
    ensures Seeded(seed) == 0 <==> seed == 0xFFFF_FFFF || seed == 0x8000_0001
  {
  }

  /** Every draw is in the range that myRand's comment states, unless the seed is one of two: after
      those every draw is -1. */
  lemma DrawsInRange(seed: uint32, k: nat)
    ensures 0 <= Draw(seed, k) <= 0x7FFF_FFFD <==> seed != 0xFFFF_FFFF && seed != 0x8000_0001
    ensures Draw(seed, k) < 0 ==> Draw(seed, k) == -1
  {
    SeedRange(seed);
    ZeroStays(Seeded(seed), k + 1);
  }

  /** The state after k draws in closed form. */
  lemma {:induction false} PowerForm(s: int, k: nat)
    ensures k > 0 ==> StateAfter(s, k) == (Power(k) * s) % M
  {
    if k == 1 {
      assert Power(1) == A * Power(0) == A;
    } else if k > 1 {
      PowerForm(s, k - 1);
      var p := Power(k - 1) * s;
      var q, r := p / M, p % M;
      assert A * p == M * (A * q) + A * r;
      var u := (A * r) / M;
      assert A * r == M * u + NextState(r);
      assert A * p == M * (A * q + u) + NextState(r) by { Distribute(A * q, u); }
      ModUnique(A * p, A * q + u, NextState(r));
      assert Power(k) * s == A * p by { Associate(Power(k - 1), s); }
    }
  }

  lemma Distribute(a: int, b: int)
    ensures M * (a + b) == M * a + M * b
  {
  }

  lemma Associate(p: int, s: int)
    ensures (A * p) * s == A * (p * s)
  {
  }

  function Power(k: nat): int { if k == 0 then 1 else A * Power(k - 1) }
}
