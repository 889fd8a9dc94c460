/** Grouping by priority with ascending group keys is a stable sort. */
module StableOrder {
  import opened Common
  import opened Nodes

  function Has(p: int): Checked -> bool {
    (c: Checked) => c.node.priority == p
  }

  /** `xs` with the elements of priority `p` only, in order. */
  function Group(xs: seq<Checked>, p: int): seq<Checked> {
    Filter(xs, Has(p))
  }

  lemma GroupMeaning(xs: seq<Checked>, p: int)
    ensures forall c :: c in Group(xs, p) <==> c in xs && c.node.priority == p
  {
    FilterMeaning(xs, Has(p));
  }

  predicate Sorted(xs: seq<Checked>) {
    forall i, j :: 0 <= i < j < |xs| ==> xs[i].node.priority <= xs[j].node.priority
  }

  /** `r` is sorted by priority and keeps, within each priority, the order of `xs`. */
  ghost predicate IsStableSort(xs: seq<Checked>, r: seq<Checked>) {
    Sorted(r) && SameGroups(r, xs)
  }

  lemma GroupSnoc(xs: seq<Checked>, c: Checked, p: int)
    ensures Group(xs + [c], p) == Group(xs, p) + if c.node.priority == p then [c] else []
  {
    assert (xs + [c])[..|xs|] == xs;
  }

  lemma {:induction false} EmptyGroup(xs: seq<Checked>, p: int)
    requires forall c :: c in xs ==> c.node.priority != p
    ensures Group(xs, p) == []
  {
    if xs != [] {
      EmptyGroup(xs[..|xs| - 1], p);
    }
  }

  /** The two lists agree within every priority. */
  ghost predicate SameGroups(r: seq<Checked>, s: seq<Checked>) {
    forall p :: Group(r, p) == Group(s, p)
  }

  lemma LastOfLargest(r: seq<Checked>, s: seq<Checked>)
    requires Sorted(r) && Sorted(s) && SameGroups(r, s) && r != []
    ensures s != [] && s[|s| - 1].node.priority <= r[|r| - 1].node.priority
  {
    var c := r[|r| - 1];
    GroupMeaning(r, c.node.priority);
    GroupMeaning(s, c.node.priority);
    assert Group(r, c.node.priority) == Group(s, c.node.priority);
    assert c in Group(r, c.node.priority);
    assert c in s;
    var d := s[|s| - 1];
    GroupMeaning(r, d.node.priority);
    GroupMeaning(s, d.node.priority);
    assert Group(s, d.node.priority) == Group(r, d.node.priority);
    assert d in Group(s, d.node.priority);
    assert d in r;
  }

  lemma InitGroups(r: seq<Checked>, s: seq<Checked>)
    requires SameGroups(r, s) && r != [] && s != []
    requires r[|r| - 1].node.priority == s[|s| - 1].node.priority
    ensures r[|r| - 1] == s[|s| - 1] && SameGroups(r[..|r| - 1], s[..|s| - 1])
  {
    var c, d := r[|r| - 1], s[|s| - 1];
    var r', s' := r[..|r| - 1], s[..|s| - 1];
    assert r == r' + [c] && s == s' + [d];
    var p := c.node.priority;
    GroupSnoc(r', c, p);
    GroupSnoc(s', d, p);
    assert Group(r, p) == Group(s, p);
    assert Group(r, p)[|Group(r, p)| - 1] == c && Group(s, p)[|Group(s, p)| - 1] == d;
    forall q ensures Group(r', q) == Group(s', q) {
      GroupSnoc(r', c, q);
      GroupSnoc(s', d, q);
      assert Group(r, q) == Group(s, q);
      if q == p {
        assert Group(r', q) == Group(r, q)[..|Group(r, q)| - 1];
        assert Group(s', q) == Group(s, q)[..|Group(s, q)| - 1];
      }
    }
  }

  /** There is only one stable sort of a list. */
  lemma {:induction false} StableSortUnique(r: seq<Checked>, s: seq<Checked>)
    requires Sorted(r) && Sorted(s) && SameGroups(r, s)
    ensures r == s
    decreases |r|
  {
    if r != [] {
      LastOfLargest(r, s);
      LastOfLargest(s, r);
      InitGroups(r, s);
      StableSortUnique(r[..|r| - 1], s[..|s| - 1]);
      assert r == r[..|r| - 1] + [r[|r| - 1]] && s == s[..|s| - 1] + [s[|s| - 1]];
    } else if s != [] {
      LastOfLargest(s, r);
    }
  }

  /** Insertion after all elements of the same or smaller priority. */
  function Insert(xs: seq<Checked>, c: Checked): seq<Checked> {
    if xs == [] || xs[|xs| - 1].node.priority <= c.node.priority then xs + [c]
    else Insert(xs[..|xs| - 1], c) + [xs[|xs| - 1]]
  }

  function StableSort(xs: seq<Checked>): seq<Checked> {
    if xs == [] then [] else Insert(StableSort(xs[..|xs| - 1]), xs[|xs| - 1])
  }

  lemma {:induction false} InsertContents(xs: seq<Checked>, c: Checked)
    ensures |Insert(xs, c)| == |xs| + 1
    ensures forall d :: d in Insert(xs, c) <==> d in xs || d == c
  {
    if !(xs == [] || xs[|xs| - 1].node.priority <= c.node.priority) {
      InsertContents(xs[..|xs| - 1], c);
      assert xs == xs[..|xs| - 1] + [xs[|xs| - 1]];
    }
  }

  lemma {:induction false} InsertSorted(xs: seq<Checked>, c: Checked)
    requires Sorted(xs)
    ensures Sorted(Insert(xs, c))
  {
    if !(xs == [] || xs[|xs| - 1].node.priority <= c.node.priority) {
      var init := xs[..|xs| - 1];
      InsertSorted(init, c);
      InsertContents(init, c);
      forall i | 0 <= i < |Insert(init, c)|
        ensures Insert(init, c)[i].node.priority <= xs[|xs| - 1].node.priority
      {
        assert Insert(init, c)[i] in Insert(init, c);
      }
    }
  }

  lemma {:induction false} InsertGroup(xs: seq<Checked>, c: Checked, p: int)
    requires Sorted(xs)
    ensures Group(Insert(xs, c), p) == Group(xs, p) + if c.node.priority == p then [c] else []
  {
    if xs == [] || xs[|xs| - 1].node.priority <= c.node.priority {
      GroupSnoc(xs, c, p);
    } else {
      var init, last := xs[..|xs| - 1], xs[|xs| - 1];
      SplitLast(xs);
      InsertGroup(init, c, p);
      GroupSnoc(init, last, p);
      GroupSnoc(Insert(init, c), last, p);
    }
  }

  lemma {:induction false} StableSortMeaning(xs: seq<Checked>)
    ensures IsStableSort(xs, StableSort(xs))
    ensures forall c :: c in StableSort(xs) <==> c in xs
  {
    if xs != [] {
      var init, last := xs[..|xs| - 1], xs[|xs| - 1];
      assert xs == init + [last];
      StableSortMeaning(init);
      InsertSorted(StableSort(init), last);
      InsertContents(StableSort(init), last);
      forall p ensures Group(StableSort(xs), p) == Group(xs, p) {
        InsertGroup(StableSort(init), last, p);
        GroupSnoc(init, last, p);
        assert Group(StableSort(init), p) == Group(init, p);
      }
    }
  }

  lemma {:induction false} InsertAt(xs: seq<Checked>, c: Checked) returns (j: nat)
    requires Sorted(xs)
    ensures j <= |xs| && Insert(xs, c) == xs[..j] + [c] + xs[j..]
    ensures forall k :: 0 <= k < j ==> xs[k].node.priority <= c.node.priority
    ensures forall k :: j <= k < |xs| ==> c.node.priority < xs[k].node.priority
  {
    if xs == [] || xs[|xs| - 1].node.priority <= c.node.priority {
      j := |xs|;
    } else {
      var init := xs[..|xs| - 1];
      j := InsertAt(init, c);
      SplitInit(xs, j);
      ConcatAssoc(init[..j] + [c], init[j..], [xs[|xs| - 1]]);
    }
  }

  /** Position `i` goes before position `j`: by priority and, where that is equal, by position. */
  predicate Before(xs: seq<Checked>, i: nat, j: nat) {
    i < |xs| && j < |xs|
    && (xs[i].node.priority < xs[j].node.priority || (xs[i].node.priority == xs[j].node.priority && i < j))
  }

  predicate Ranked(xs: seq<Checked>, at: seq<nat>) {
    forall k, l :: 0 <= k < l < |at| ==> Before(xs, at[k], at[l])
  }

  predicate At(xs: seq<Checked>, r: seq<Checked>, at: seq<nat>) {
    |at| == |r| && forall k :: 0 <= k < |at| ==> at[k] < |xs| && r[k] == xs[at[k]]
  }

  predicate Covers(at: seq<nat>, n: nat) {
    forall i: nat :: i < n ==> i in at
  }

  /** `r` are the elements of `xs` at the positions `at`, each position once, in that order. */
  predicate OrderedAt(xs: seq<Checked>, r: seq<Checked>, at: seq<nat>) {
    |r| == |xs| && At(xs, r, at) && Covers(at, |xs|) && Ranked(xs, at)
  }

  function InsertIndex(at: seq<nat>, j: nat, n: nat): (r: seq<nat>)
    requires j <= |at|
    ensures |r| == |at| + 1 && r[j] == n
    ensures forall k :: 0 <= k < j ==> r[k] == at[k]
    ensures forall k :: j < k < |r| ==> r[k] == at[k - 1]
  {
    at[..j] + [n] + at[j..]
  }

  lemma InsertCovers(at: seq<nat>, j: nat, n: nat)
    requires j <= |at| && Covers(at, n)
    ensures Covers(InsertIndex(at, j, n), n + 1)
  {
    forall i: nat | i <= n ensures i in InsertIndex(at, j, n) {
      if i == n {
        assert InsertIndex(at, j, n)[j] == n;
      } else {
        assert i in at;
        var k :| 0 <= k < |at| && at[k] == i;
        assert InsertIndex(at, j, n)[if k < j then k else k + 1] == i;
      }
    }
  }

  lemma InsertRanked(xs: seq<Checked>, at: seq<nat>, j: nat, n: nat)
    requires j <= |at| && Ranked(xs, at)
    requires forall k :: 0 <= k < j ==> Before(xs, at[k], n)
    requires forall k :: j <= k < |at| ==> Before(xs, n, at[k])
    ensures Ranked(xs, InsertIndex(at, j, n))
  {
  }

  /** A new last element goes between those of at most its priority and those above. */
  lemma LastGoesBetween(xs: seq<Checked>, r: seq<Checked>, at: seq<nat>, j: nat, k: nat)
    requires xs != [] && At(xs[..|xs| - 1], r, at) && k < |at|
    requires r[k].node.priority <= xs[|xs| - 1].node.priority <==> k < j
    ensures if k < j then Before(xs, at[k], |xs| - 1) else Before(xs, |xs| - 1, at[k])
  {
    assert r[k] == xs[at[k]];
  }

  lemma RankedWider(xs: seq<Checked>, at: seq<nat>)
    requires xs != [] && Ranked(xs[..|xs| - 1], at)
    ensures Ranked(xs, at)
  {
    forall k, l | 0 <= k < l < |at| ensures Before(xs, at[k], at[l]) {
      assert Before(xs[..|xs| - 1], at[k], at[l]);
    }
  }

  lemma InsertElements(xs: seq<Checked>, r: seq<Checked>, at: seq<nat>, j: nat)
    requires xs != [] && At(xs[..|xs| - 1], r, at) && j <= |r|
    ensures At(xs, r[..j] + [xs[|xs| - 1]] + r[j..], InsertIndex(at, j, |xs| - 1))
  {
  }

  /** The stable sort takes every position once, smaller priorities first and, within a priority, the
      earlier position first. */
  lemma {:induction false} StableSortPositions(xs: seq<Checked>) returns (at: seq<nat>)
    ensures OrderedAt(xs, StableSort(xs), at)
  {
    if xs == [] {
      at := [];
    } else {
      var init, last := xs[..|xs| - 1], xs[|xs| - 1];
      var before := StableSortPositions(init);
      StableSortMeaning(init);
      var j := InsertAt(StableSort(init), last);
      forall k | 0 <= k < |before|
        ensures if k < j then Before(xs, before[k], |init|) else Before(xs, |init|, before[k])
      {
        LastGoesBetween(xs, StableSort(init), before, j, k);
      }
      RankedWider(xs, before);
      InsertRanked(xs, before, j, |init|);
      InsertCovers(before, j, |init|);
      InsertElements(xs, StableSort(init), before, j);
      at := InsertIndex(before, j, |xs| - 1);
    }
  }

  lemma {:induction false} InsertDistinct(xs: seq<Checked>, c: Checked)
    requires CheckedUrlDistinct(xs) && forall d :: d in xs ==> d.node.url != c.node.url
    ensures CheckedUrlDistinct(Insert(xs, c))
  {
    if !(xs == [] || xs[|xs| - 1].node.priority <= c.node.priority) {
      var init, last := xs[..|xs| - 1], xs[|xs| - 1];
      InsertDistinct(init, c);
      InsertContents(init, c);
      forall i | 0 <= i < |Insert(init, c)| ensures Insert(init, c)[i].node.url != last.node.url {
        assert Insert(init, c)[i] in Insert(init, c);
      }
    }
  }

  lemma {:induction false} StableSortDistinct(xs: seq<Checked>)
    requires CheckedUrlDistinct(xs)
    ensures CheckedUrlDistinct(StableSort(xs))
  {
    if xs != [] {
      StableSortDistinct(xs[..|xs| - 1]);
      StableSortMeaning(xs[..|xs| - 1]);
      InsertDistinct(StableSort(xs[..|xs| - 1]), xs[|xs| - 1]);
    }
  }

  /** On a list that already ascends strictly, sorting changes nothing. */
  lemma AscendingIsSorted(xs: seq<Checked>)
    requires Ascending(xs)
    ensures StableSort(xs) == xs
  {
    StableSortMeaning(xs);
    StableSortUnique(StableSort(xs), xs);
  }

  // ----- The grouped form -----

  /** The groups laid end to end in the order of their keys. */
  function Flat(groups: map<int, seq<Checked>>, ps: seq<int>): seq<Checked>
    requires forall i :: 0 <= i < |ps| ==> ps[i] in groups
  {
    if ps == [] then [] else Flat(groups, ps[..|ps| - 1]) + groups[ps[|ps| - 1]]
  }

  /** `ps` lists the keys of the map, each once. */
  predicate KeysOf(groups: map<int, seq<Checked>>, ps: seq<int>) {
    && (forall i :: 0 <= i < |ps| ==> ps[i] in groups)
    && (forall p :: p in groups ==> p in ps)
    && (forall i, j :: 0 <= i < j < |ps| ==> ps[i] != ps[j])
  }

  /** `groups` buckets `xs` by priority and `ps` lists the keys, each once. */
  ghost predicate IsGrouping(xs: seq<Checked>, groups: map<int, seq<Checked>>, ps: seq<int>) {
    && KeysOf(groups, ps)
    && (forall p :: p in groups ==> groups[p] == Group(xs, p))
    && (forall c :: c in xs ==> c.node.priority in groups)
  }

  lemma {:induction false} GroupOfGroup(xs: seq<Checked>, p: int, q: int)
    ensures Group(Group(xs, p), q) == if p == q then Group(xs, p) else []
  {
    if xs != [] {
      var init, last := xs[..|xs| - 1], xs[|xs| - 1];
      GroupOfGroup(init, p, q);
      assert xs == init + [last];
      GroupSnoc(init, last, p);
      GroupSnoc(Group(init, p), last, q);
    }
  }

  predicate StrictlyIncreasing(ps: seq<int>) {
    forall i, j :: 0 <= i < j < |ps| ==> ps[i] < ps[j]
  }

  lemma {:induction false} FlatGroup(xs: seq<Checked>, groups: map<int, seq<Checked>>, ps: seq<int>, q: int)
    requires StrictlyIncreasing(ps)
    requires forall i :: 0 <= i < |ps| ==> ps[i] in groups && groups[ps[i]] == Group(xs, ps[i])
    ensures Group(Flat(groups, ps), q) == if q in ps then Group(xs, q) else []
  {
    if ps != [] {
      var n := |ps| - 1;
      var init := ps[..n];
      assert ps == init + [ps[n]];
      FlatGroup(xs, groups, init, q);
      FilterConcat(Flat(groups, init), groups[ps[n]], Has(q));
      GroupOfGroup(xs, ps[n], q);
    }
  }

  lemma {:induction false} FlatSorted(xs: seq<Checked>, groups: map<int, seq<Checked>>, ps: seq<int>)
    requires StrictlyIncreasing(ps)
    requires forall i :: 0 <= i < |ps| ==> ps[i] in groups && groups[ps[i]] == Group(xs, ps[i])
    ensures Sorted(Flat(groups, ps))
    ensures forall c :: c in Flat(groups, ps) ==> ps != [] && c.node.priority <= ps[|ps| - 1]
  {
    if ps != [] {
      var n := |ps| - 1;
      var low, high := Flat(groups, ps[..n]), groups[ps[n]];
      FlatSorted(xs, groups, ps[..n]);
      GroupMeaning(xs, ps[n]);
      assert forall i :: 0 <= i < |low| ==> low[i] in low;
      assert forall i :: 0 <= i < |high| ==> high[i] in high;
    }
  }

  /** Visiting the groups by ascending key is visiting the stable sort. */
  lemma GroupingIsStableSort(xs: seq<Checked>, groups: map<int, seq<Checked>>, ps: seq<int>)
    requires IsGrouping(xs, groups, ps) && StrictlyIncreasing(ps)
    ensures Flat(groups, ps) == StableSort(xs)
  {
    FlatSorted(xs, groups, ps);
    StableSortMeaning(xs);
    forall q ensures Group(Flat(groups, ps), q) == Group(StableSort(xs), q) {
      FlatGroup(xs, groups, ps, q);
      assert Group(StableSort(xs), q) == Group(xs, q);
      if q !in ps {
        EmptyGroup(xs, q);
      }
    }
    StableSortUnique(Flat(groups, ps), StableSort(xs));
  }
}
