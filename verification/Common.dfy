/** What several of the modules need. */
module Common {

  datatype Option<T> = None | Some(value: T)

  /** memmove to a lower place in the same array; the two stretches may overlap. */
  method MoveDown<T>(a: array<T>, to: nat, from: nat, count: nat)
    requires to <= from && from + count <= a.Length
    modifies a
    ensures a[..to] == old(a[..to]) && a[to..to + count] == old(a[from..from + count])
    ensures a[..to + count] == old(a[..to]) + old(a[from..from + count])
  {
    ghost var was := a[..];
    for i := 0 to count
      invariant a[to..to + i] == was[from..from + i] && a[..to] == was[..to] && a[from + i..] == was[from + i..]
    {
      assert a[from + i] == a[from + i..][0] == was[from + i];
      a[to + i] := a[from + i];
      assert a[to..to + i + 1] == a[to..to + i] + [was[from + i]];
      assert a[from + i + 1..] == was[from + i..][1..];
    }
    assert a[..to + count] == a[..to] + a[to..to + count];
  }

  lemma {:induction false} SubsetSize<T>(a: set<T>, b: set<T>)
    requires a <= b
    ensures |a| <= |b|
  {
    if a != {} {
      var v :| v in a;
      SubsetSize(a - {v}, b - {v});
    }
  }

  /** There are at most n natural numbers below n. */
  lemma {:induction false} SizeBelow(n: nat, s: set<nat>)
    requires forall t | t in s :: t < n
    ensures |s| <= n
  {
    if n > 0 {
      SizeBelow(n - 1, s - {n - 1});
    } else {
      assert s == {};
    }
  }
}
