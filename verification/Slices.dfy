/** Go slices as the registry uses them: a backing array and the length of the prefix in use. */
module Slices {
  import opened Common

  /** Go's `append`: in place while the backing array has room, otherwise into a larger copy. */
  method Append<T>(a: array<T>, n: nat, x: T) returns (b: array<T>)
    requires n <= a.Length
    modifies a
    ensures b == a || fresh(b)
    ensures n < b.Length && b[..n + 1] == old(a[..n]) + [x]
  {
    if n < a.Length {
      a[n] := x;
      assert a[..n + 1] == a[..n] + [x];
      return a;
    }
    b := new T[2 * n + 1](_ => x);
    for i := 0 to n
      invariant fresh(b) && b.Length == 2 * n + 1 && b[n] == x
      invariant b[..i] == a[..i] && a[..] == old(a[..])
    {
      b[i] := a[i];
    }
    assert b[..n + 1] == b[..n] + [x];
  }

  method FromSeq<T>(xs: seq<T>) returns (a: array<T>)
    ensures fresh(a) && a[..] == xs
  {
    a := new T[|xs|](i requires 0 <= i < |xs| => xs[i]);
  }

  /** The `dst := x[:0]` loop: kept elements are written back into the array being read. The write
      index never passes the read index, so every element is read before it is overwritten. */
  method Compact<T(!new)>(a: array<T>, n: nat, keep: T -> bool) returns (m: nat)
    requires n <= a.Length
    modifies a
    ensures m <= n && a[..m] == Filter(old(a[..n]), keep)
    ensures a[m..] == old(a[m..])
  {
    ghost var was := a[..];
    m := 0;
    for i := 0 to n
      invariant m <= i
      invariant a[..m] == Filter(was[..i], keep)
      invariant forall k :: m <= k < a.Length ==> a[k] == was[k]
    {
      FilterSnoc(was, i, keep);
      var x := a[i];
      if keep(x) {
        a[m] := x;
        m := m + 1;
        assert a[..m] == a[..m - 1] + [x];
      }
    }
    assert was[..n] == old(a[..n]);
  }
}
