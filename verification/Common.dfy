/** Vocabulary shared by the other modules: optional values, order-preserving filtering and the
    lexicographic order Go's `<` puts on strings. */
module Common {
  datatype Option<+T> = None | Some(value: T)

  /** The elements of `xs` that satisfy `keep`, in order. */
  function Filter<T(!new)>(xs: seq<T>, keep: T -> bool): (r: seq<T>)
    ensures |r| <= |xs|
  {
    if xs == [] then []
    else
      var init := Filter(xs[..|xs| - 1], keep);
      if keep(xs[|xs| - 1]) then init + [xs[|xs| - 1]] else init
  }

  lemma {:induction false} FilterMeaning<T(!new)>(xs: seq<T>, keep: T -> bool)
    ensures forall x :: x in Filter(xs, keep) <==> x in xs && keep(x)
  {
    if xs != [] {
      FilterMeaning(xs[..|xs| - 1], keep);
      SplitLast(xs);
    }
  }

  lemma {:induction false} FilterSnoc<T(!new)>(xs: seq<T>, i: nat, keep: T -> bool)
    requires i < |xs|
    ensures Filter(xs[..i + 1], keep) == Filter(xs[..i], keep) + if keep(xs[i]) then [xs[i]] else []
  {
    assert xs[..i + 1][..i] == xs[..i];
  }

  lemma {:induction false} FilterConcat<T(!new)>(xs: seq<T>, ys: seq<T>, keep: T -> bool)
    ensures Filter(xs + ys, keep) == Filter(xs, keep) + Filter(ys, keep)
  {
    if ys == [] {
      assert xs + ys == xs;
    } else {
      var n := |ys| - 1;
      assert (xs + ys)[..|xs + ys| - 1] == xs + ys[..n];
      FilterConcat(xs, ys[..n], keep);
    }
  }

  /** Filtering keeps the relative order: kept elements sit at increasing positions of the original. */
  lemma {:induction false} FilterPosition<T(!new)>(xs: seq<T>, keep: T -> bool, i: nat) returns (p: nat)
    requires i < |xs| && keep(xs[i])
    ensures p == |Filter(xs[..i], keep)| < |Filter(xs, keep)|
    ensures Filter(xs, keep)[p] == xs[i]
  {
    p := |Filter(xs[..i], keep)|;
    FilterSnoc(xs, i, keep);
    FilterConcat(xs[..i + 1], xs[i + 1..], keep);
    assert xs[..i + 1] + xs[i + 1..] == xs;
  }

  /** `ys` are the elements of `xs` at the positions `from`, which increase strictly. */
  predicate PickedOut<T(==)>(xs: seq<T>, ys: seq<T>, from: seq<nat>) {
    && |from| == |ys|
    && (forall k :: 0 <= k < |from| ==> from[k] < |xs| && ys[k] == xs[from[k]])
    && (forall k, l :: 0 <= k < l < |from| ==> from[k] < from[l])
  }

  lemma PickedOutSnoc<T>(xs: seq<T>, ys: seq<T>, from: seq<nat>)
    requires xs != [] && PickedOut(xs[..|xs| - 1], ys, from)
    ensures PickedOut(xs, ys, from)
    ensures PickedOut(xs, ys + [xs[|xs| - 1]], from + [|xs| - 1])
    ensures forall i: nat :: i in from + [|xs| - 1] <==> i in from || i == |xs| - 1
    ensures |xs| - 1 !in from
  {
    assert forall i: nat :: i in from ==> i < |xs| - 1;
  }

  /** What filtering leaves: the elements at exactly the positions that satisfy `keep`, in their order. */
  lemma {:induction false} FilterPositions<T(!new)>(xs: seq<T>, keep: T -> bool) returns (from: seq<nat>)
    ensures PickedOut(xs, Filter(xs, keep), from)
    ensures forall i: nat :: i < |xs| ==> (i in from <==> keep(xs[i]))
  {
    if xs == [] {
      from := [];
    } else {
      var n := |xs| - 1;
      var before := FilterPositions(xs[..n], keep);
      PickedOutSnoc(xs, Filter(xs[..n], keep), before);
      from := if keep(xs[n]) then before + [n] else before;
    }
  }

  lemma ConcatInit<T>(xs: seq<T>, ys: seq<T>)
    requires ys != []
    ensures (xs + ys)[..|xs + ys| - 1] == xs + ys[..|ys| - 1]
    ensures (xs + ys)[|xs + ys| - 1] == ys[|ys| - 1]
  {
  }

  lemma ConcatAssoc<T>(xs: seq<T>, ys: seq<T>, zs: seq<T>)
    ensures xs + (ys + zs) == (xs + ys) + zs
  {
  }

  lemma SnocInit<T>(xs: seq<T>, x: T)
    ensures (xs + [x])[..|xs + [x]| - 1] == xs
  {
  }

  lemma SplitLast<T>(xs: seq<T>)
    requires xs != []
    ensures xs == xs[..|xs| - 1] + [xs[|xs| - 1]]
  {
  }

  lemma SplitInit<T>(xs: seq<T>, j: nat)
    requires j < |xs|
    ensures xs[..|xs| - 1][..j] == xs[..j] && xs[j..] == xs[..|xs| - 1][j..] + [xs[|xs| - 1]]
  {
  }

  lemma InInit<T>(xs: seq<T>, x: T)
    requires x in xs
    ensures x == xs[|xs| - 1] || x in xs[..|xs| - 1]
  {
  }

  lemma TakeInit<T>(xs: seq<T>, i: nat)
    requires i < |xs|
    ensures xs[..i + 1][..i] == xs[..i] && xs[..i + 1] == xs[..i] + [xs[i]]
  {
  }

  /** The string order of Go: lexicographic, a proper prefix being smaller. */
  predicate Below(a: string, b: string) {
    b != [] && (a == [] || a[0] < b[0] || (a[0] == b[0] && Below(a[1..], b[1..])))
  }

  predicate AtMost(a: string, b: string) {
    a == b || Below(a, b)
  }

  lemma {:induction false} BelowTotal(a: string, b: string)
    ensures AtMost(a, b) || AtMost(b, a)
    ensures !(Below(a, b) && AtMost(b, a))
  {
    if a != [] && b != [] && a[0] == b[0] {
      BelowTotal(a[1..], b[1..]);
      assert a == [a[0]] + a[1..] && b == [b[0]] + b[1..];
    }
  }

  lemma {:induction false} BelowTransitive(a: string, b: string, c: string)
    requires AtMost(a, b) && AtMost(b, c)
    ensures AtMost(a, c)
  {
    if a != b && b != c && a != [] && a[0] == b[0] == c[0] {
      BelowTransitive(a[1..], b[1..], c[1..]);
      assert a == [a[0]] + a[1..] && c == [c[0]] + c[1..];
    }
  }

  /** One string is below another exactly when it is a proper prefix of it, or has the smaller character at
      the first position where they differ. */
  lemma {:induction false} BelowIff(a: string, b: string)
    ensures Below(a, b) <==> exists k :: FirstDifference(a, b, k)
  {
    if a != [] && b != [] && a[0] == b[0] {
      BelowIff(a[1..], b[1..]);
      if k :| FirstDifference(a[1..], b[1..], k) {
        assert a[..k + 1] == [a[0]] + a[1..][..k] && b[..k + 1] == [b[0]] + b[1..][..k];
        assert FirstDifference(a, b, k + 1);
      }
      if k :| FirstDifference(a, b, k) {
        assert a[..k][1..] == a[1..][..k - 1] && b[..k][1..] == b[1..][..k - 1];
        assert FirstDifference(a[1..], b[1..], k - 1);
      }
    } else if Below(a, b) {
      assert FirstDifference(a, b, 0);
    } else {
      forall k ensures !FirstDifference(a, b, k) {
        if 0 < k <= |a| && k < |b| {
          assert a[..k][0] == a[0] && b[..k][0] == b[0];
        }
      }
    }
  }

  predicate FirstDifference(a: string, b: string, k: int) {
    0 <= k <= |a| && k < |b| && a[..k] == b[..k] && (k == |a| || a[k] < b[k])
  }

  lemma SubsetSize<T>(a: set<T>, b: set<T>)
    requires a <= b
    ensures |a| <= |b|
    ensures a != b ==> |a| < |b|
  {
    assert b == a + (b - a);
  }
}
