/** Byte strings and the order memcmp gives them. */
module Bytes {

  type byte = b: int | 0 <= b < 256

  type bytes = seq<byte>

  /** Sign of memcmp on the common length, then of the difference in length. On strings of equal
      length this is memcmp. */
  function Cmp(a: bytes, b: bytes): (sign: int)
    ensures -1 <= sign <= 1
    decreases |a|
  {
    if |a| == 0 then (if |b| == 0 then 0 else -1)
    else if |b| == 0 then 1
    else if a[0] < b[0] then -1
    else if a[0] > b[0] then 1
    else Cmp(a[1..], b[1..])
  }

  lemma {:induction false} CmpZero(a: bytes, b: bytes)
    ensures Cmp(a, b) == 0 <==> a == b
    decreases |a|
  {
    if |a| > 0 && |b| > 0 && a[0] == b[0] {
      CmpZero(a[1..], b[1..]);
      assert a == [a[0]] + a[1..] && b == [b[0]] + b[1..];
    }
  }

  lemma {:induction false} CmpAnti(a: bytes, b: bytes)
    ensures Cmp(a, b) == -Cmp(b, a)
    decreases |a|
  {
    if |a| > 0 && |b| > 0 && a[0] == b[0] { CmpAnti(a[1..], b[1..]); }
  }

  lemma {:induction false} CmpTrans(a: bytes, b: bytes, c: bytes)
    requires Cmp(a, b) <= 0 && Cmp(b, c) <= 0
    ensures Cmp(a, c) <= 0 && (Cmp(a, b) < 0 || Cmp(b, c) < 0 ==> Cmp(a, c) < 0)
    decreases |a|
  {
    if |a| > 0 && |b| > 0 && |c| > 0 && a[0] == b[0] == c[0] { CmpTrans(a[1..], b[1..], c[1..]); }
  }

  predicate Prefix(p: bytes, s: bytes) { |p| <= |s| && s[..|p|] == p }

  /** A prefix sorts before what it starts. */
  lemma {:induction false} CmpPrefix(p: bytes, s: bytes)
    requires Prefix(p, s)
    ensures Cmp(p, s) <= 0
    decreases |p|
  {
    if |p| > 0 {
      assert p[0] == s[..|p|][0] && p[1..] == s[..|p|][1..] == s[1..][..|p| - 1];
      CmpPrefix(p[1..], s[1..]);
    }
  }

  /** a and b agree before i, and there a ends, or has the smaller byte. */
  predicate FirstDiffers(a: bytes, b: bytes, i: nat) {
    i <= |a| && i < |b| && a[..i] == b[..i] && (i == |a| || a[i] < b[i])
  }

  lemma SameStart(a: bytes, b: bytes, i: nat)
    requires FirstDiffers(a, b, i)
    ensures i > 0 ==> a[0] == b[0]
  {
    if i > 0 { assert a[0] == a[..i][0] == b[..i][0]; }
  }

  /** The order in full: the first difference decides, and a proper prefix comes first. */
  lemma {:induction false} CmpIff(a: bytes, b: bytes)
    ensures Cmp(a, b) < 0 <==> exists i: nat :: FirstDiffers(a, b, i)
    decreases |a|
  {
    if |a| > 0 && |b| > 0 && a[0] == b[0] {
      CmpIff(a[1..], b[1..]);
      if Cmp(a, b) < 0 {
        var i: nat :| FirstDiffers(a[1..], b[1..], i);
        assert a[..i + 1] == [a[0]] + a[1..][..i] && b[..i + 1] == [b[0]] + b[1..][..i];
        assert FirstDiffers(a, b, i + 1);
      }
      forall i: nat | FirstDiffers(a, b, i) ensures Cmp(a, b) < 0 {
        if i > 0 {
          assert a[1..][..i - 1] == a[..i][1..] && b[1..][..i - 1] == b[..i][1..];
          assert FirstDiffers(a[1..], b[1..], i - 1);
        }
      }
    } else {
      if Cmp(a, b) < 0 { assert a[..0] == b[..0] && FirstDiffers(a, b, 0); }
      forall i: nat | FirstDiffers(a, b, i) ensures Cmp(a, b) < 0 { SameStart(a, b, i); }
    }
  }

  // ----- the order of hstore keys: by length first -----

  function KeyCmp(a: bytes, b: bytes): int {
    if |a| == |b| then Cmp(a, b) else if |a| > |b| then 1 else -1
  }

  predicate KeyLess(a: bytes, b: bytes) { KeyCmp(a, b) < 0 }

  /** Shorter keys come first; among keys of one length the first byte that differs decides. */
  lemma KeyLessIff(a: bytes, b: bytes)
    ensures KeyLess(a, b) <==> |a| < |b| || (|a| == |b| && exists i :: 0 <= i < |a| && SmallerAt(a, b, i))
  {
    CmpIff(a, b);
    if |a| == |b| {
      forall i: nat | FirstDiffers(a, b, i) ensures i < |a| && SmallerAt(a, b, i) { }
      forall i | 0 <= i < |a| && SmallerAt(a, b, i) ensures FirstDiffers(a, b, i) { }
    }
  }

  predicate SmallerAt(a: bytes, b: bytes, i: nat)
    requires i < |a| == |b|
  {
    a[..i] == b[..i] && a[i] < b[i]
  }

  lemma KeyCmpZero(a: bytes, b: bytes)
    ensures KeyCmp(a, b) == 0 <==> a == b
  {
    CmpZero(a, b);
  }

  lemma KeyCmpAnti(a: bytes, b: bytes)
    ensures KeyCmp(a, b) == -KeyCmp(b, a)
  {
    CmpAnti(a, b);
  }

  lemma KeyTrans(a: bytes, b: bytes, c: bytes)
    requires KeyLess(a, b) && KeyLess(b, c)
    ensures KeyLess(a, c)
  {
    if |a| == |b| == |c| { CmpTrans(a, b, c); }
  }

  lemma KeyIrreflexive(a: bytes)
    ensures !KeyLess(a, a)
  {
    KeyCmpZero(a, a);
  }
}
