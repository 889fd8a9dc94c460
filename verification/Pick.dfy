/** `PickFastestPerPriority` (pkg/registry/registry.go) and the health check that feeds it
    (pkg/health/check.go). */
module Pick {
  import opened Common
  import opened Nodes
  import opened StableOrder

  /** `nodes[j]` is the earliest node of smallest ping among the alive nodes of priority `p`. */
  predicate FastestAt(nodes: seq<Checked>, p: int, j: int) {
    && 0 <= j < |nodes| && nodes[j].alive && nodes[j].node.priority == p
    && forall i :: 0 <= i < |nodes| && nodes[i].alive && nodes[i].node.priority == p ==>
         nodes[j].ping <= nodes[i].ping && (i < j ==> nodes[j].ping < nodes[i].ping)
  }

  lemma HasPrioritySnoc(best: seq<Checked>, c: Checked)
    ensures forall q :: HasPriority(best + [c], q) <==> HasPriority(best, q) || q == c.node.priority
  {
    forall q ensures HasPriority(best + [c], q) <==> HasPriority(best, q) || q == c.node.priority {
      assert (best + [c])[|best|] == c;
      if k :| 0 <= k < |best| && best[k].node.priority == q {
        assert (best + [c])[k].node.priority == q;
      }
    }
  }

  /** The best list: strictly ascending, one entry for exactly the priorities with an alive node, that
      entry being the earliest alive node of minimal ping. */
  ghost predicate IsPick(nodes: seq<Checked>, best: seq<Checked>) {
    && Ascending(best)
    && (forall k :: 0 <= k < |best| ==> Picked(nodes, best[k]))
    && (forall i :: 0 <= i < |nodes| && nodes[i].alive ==> HasPriority(best, nodes[i].node.priority))
  }

  ghost predicate Picked(nodes: seq<Checked>, c: Checked) {
    exists j :: FastestAt(nodes, c.node.priority, j) && nodes[j] == c
  }

  predicate HasPriority(best: seq<Checked>, p: int) {
    exists k :: 0 <= k < |best| && best[k].node.priority == p
  }

  lemma PickSubset(nodes: seq<Checked>, a: seq<Checked>, b: seq<Checked>, k: nat)
    requires IsPick(nodes, a) && IsPick(nodes, b) && k < |a|
    ensures a[k] in b
  {
    assert Picked(nodes, a[k]);
    var i :| FastestAt(nodes, a[k].node.priority, i) && nodes[i] == a[k];
    assert HasPriority(b, nodes[i].node.priority);
    var l :| 0 <= l < |b| && b[l].node.priority == a[k].node.priority;
    assert Picked(nodes, b[l]);
    var j :| FastestAt(nodes, b[l].node.priority, j) && nodes[j] == b[l];
    assert i == j;
  }

  lemma {:induction false} AscendingUnique(a: seq<Checked>, b: seq<Checked>)
    requires Ascending(a) && Ascending(b)
    requires forall k :: 0 <= k < |a| ==> a[k] in b
    requires forall k :: 0 <= k < |b| ==> b[k] in a
    ensures a == b
    decreases |a|
  {
    if a != [] { assert a[0] in b; }
    if b != [] { assert b[0] in a; }
    if a != [] {
      var c, d := a[|a| - 1], b[|b| - 1];
      assert c in b && d in a;
      assert c == d;
      forall k | 0 <= k < |a| - 1 ensures a[k] in b[..|b| - 1] {
        InInit(b, a[k]);
      }
      forall k | 0 <= k < |b| - 1 ensures b[k] in a[..|a| - 1] {
        InInit(a, b[k]);
      }
      AscendingUnique(a[..|a| - 1], b[..|b| - 1]);
      SplitLast(a);
      SplitLast(b);
    }
  }

  /** Whatever order the map iteration takes, the result is the same list. */
  lemma PickUnique(nodes: seq<Checked>, a: seq<Checked>, b: seq<Checked>)
    requires IsPick(nodes, a) && IsPick(nodes, b)
    ensures a == b
  {
    forall k | 0 <= k < |a| ensures a[k] in b { PickSubset(nodes, a, b, k); }
    forall k | 0 <= k < |b| ensures b[k] in a { PickSubset(nodes, b, a, k); }
    AscendingUnique(a, b);
  }

  // ----- The computation: a running minimum per group -----

  function Alive(): Checked -> bool {
    (c: Checked) => c.alive
  }

  /** The alive nodes of priority `p`, in order. */
  function AliveGroup(nodes: seq<Checked>, p: int): seq<Checked> {
    Group(Filter(nodes, Alive()), p)
  }

  lemma AliveGroupMeaning(nodes: seq<Checked>, p: int)
    ensures forall c :: c in AliveGroup(nodes, p) <==> c in nodes && c.alive && c.node.priority == p
  {
    FilterMeaning(nodes, Alive());
    GroupMeaning(Filter(nodes, Alive()), p);
  }

  lemma AliveGroupSnoc(nodes: seq<Checked>, c: Checked, p: int)
    ensures AliveGroup(nodes + [c], p) ==
            AliveGroup(nodes, p) + if c.alive && c.node.priority == p then [c] else []
  {
    assert (nodes + [c])[..|nodes|] == nodes;
    if c.alive {
      GroupSnoc(Filter(nodes, Alive()), c, p);
    }
  }

  /** The running minimum: a later node replaces it only with a strictly smaller ping. */
  function Fastest(group: seq<Checked>): Checked
    requires group != []
  {
    var last := group[|group| - 1];
    if |group| == 1 then last
    else
      var before := Fastest(group[..|group| - 1]);
      if last.ping < before.ping then last else before
  }

  lemma FastestOfFirst(init: seq<Checked>, last: Checked, p: int)
    requires AliveGroup(init, p) == [] && last.alive && last.node.priority == p
    ensures FastestAt(init + [last], p, |init|)
  {
    AliveGroupMeaning(init, p);
    forall i | 0 <= i < |init| && init[i].alive ensures init[i].node.priority != p {
      assert init[i] in AliveGroup(init, p) <==> init[i].node.priority == p;
    }
  }

  lemma FastestOfMore(init: seq<Checked>, last: Checked, p: int, j: nat)
    requires FastestAt(init, p, j)
    ensures var better := last.alive && last.node.priority == p && last.ping < init[j].ping;
            FastestAt(init + [last], p, if better then |init| else j)
  {
    assert forall i :: 0 <= i < |init| ==> (init + [last])[i] == init[i];
  }

  /** The running minimum of a group is the earliest fastest node of the whole list. */
  lemma {:induction false} FastestOfGroup(nodes: seq<Checked>, p: int) returns (j: nat)
    requires AliveGroup(nodes, p) != []
    ensures FastestAt(nodes, p, j) && nodes[j] == Fastest(AliveGroup(nodes, p))
  {
    assert nodes != [];
    var init, last := nodes[..|nodes| - 1], nodes[|nodes| - 1];
    assert nodes == init + [last];
    AliveGroupSnoc(init, last, p);
    if AliveGroup(init, p) == [] {
      j := |init|;
      FastestOfFirst(init, last, p);
    } else {
      j := FastestOfGroup(init, p);
      FastestOfMore(init, last, p, j);
      if last.alive && last.node.priority == p {
        assert AliveGroup(nodes, p)[..|AliveGroup(nodes, p)| - 1] == AliveGroup(init, p);
        if last.ping < init[j].ping {
          j := |init|;
        }
      }
    }
  }

  function InsertAscending(xs: seq<Checked>, c: Checked): (r: seq<Checked>)
    requires Ascending(xs) && !HasPriority(xs, c.node.priority)
    ensures Ascending(r)
    ensures forall d :: d in r <==> d in xs || d == c
  {
    if xs == [] || xs[|xs| - 1].node.priority < c.node.priority then xs + [c]
    else
      var init, last := xs[..|xs| - 1], xs[|xs| - 1];
      assert xs == init + [last];
      assert last.node.priority != c.node.priority;
      assert !HasPriority(init, c.node.priority);
      var r := InsertAscending(init, c);
      assert forall i :: 0 <= i < |r| ==> r[i] in r;
      r + [last]
  }

  /** sort.Slice by priority on a list in which no priority repeats. */
  method SortByPriority(xs: seq<Checked>) returns (r: seq<Checked>)
    requires forall i, j :: 0 <= i < j < |xs| ==> xs[i].node.priority != xs[j].node.priority
    ensures Ascending(r)
    ensures forall c :: c in r <==> c in xs
  {
    r := [];
    for i := 0 to |xs|
      invariant Ascending(r)
      invariant forall c :: c in r <==> c in xs[..i]
    {
      assert forall k :: 0 <= k < |r| ==> r[k] in xs[..i];
      assert xs[..i + 1] == xs[..i] + [xs[i]];
      r := InsertAscending(r, xs[i]);
    }
    assert xs[..|xs|] == xs;
  }

  /** `m` maps exactly the priorities that have an alive node to their groups. */
  ghost predicate AliveGrouped(nodes: seq<Checked>, m: map<int, seq<Checked>>) {
    forall p :: if p in m then m[p] == AliveGroup(nodes, p) && m[p] != [] else AliveGroup(nodes, p) == []
  }

  lemma AliveGroupedSnoc(nodes: seq<Checked>, m: map<int, seq<Checked>>, n: Checked)
    requires AliveGrouped(nodes, m)
    ensures var p := n.node.priority;
            AliveGrouped(nodes + [n], if n.alive then m[p := (if p in m then m[p] else []) + [n]] else m)
  {
    forall p ensures AliveGroup(nodes + [n], p) ==
                     AliveGroup(nodes, p) + if n.alive && n.node.priority == p then [n] else []
    {
      AliveGroupSnoc(nodes, n, p);
    }
  }

  method GroupAlive(nodes: seq<Checked>) returns (m: map<int, seq<Checked>>)
    ensures AliveGrouped(nodes, m)
  {
    m := map[];
    for i := 0 to |nodes|
      invariant AliveGrouped(nodes[..i], m)
    {
      var n := nodes[i];
      AliveGroupedSnoc(nodes[..i], m, n);
      assert nodes[..i + 1] == nodes[..i] + [n];
      if !n.alive {
        continue;
      }
      var p := n.node.priority;
      m := m[p := (if p in m then m[p] else []) + [n]];
    }
    assert nodes[..|nodes|] == nodes;
  }

  method FastestInGroup(group: seq<Checked>) returns (fastest: Checked)
    requires group != []
    ensures fastest == Fastest(group)
  {
    fastest := group[0];
    for k := 1 to |group|
      invariant fastest == Fastest(group[..k])
    {
      assert group[..k + 1][..k] == group[..k];
      var cur := group[k];
      if cur.ping < fastest.ping {
        fastest := cur;
      }
    }
    assert group[..|group|] == group;
  }

  /** `best` holds the fastest node of every group of `m` but those still in `todo`. */
  predicate Collected(m: map<int, seq<Checked>>, todo: set<int>, best: seq<Checked>)
    requires forall p :: p in m ==> m[p] != []
  {
    && (forall k :: 0 <= k < |best| ==>
          var p := best[k].node.priority; p in m && p !in todo && best[k] == Fastest(m[p]))
    && (forall p :: p in m && p !in todo ==> HasPriority(best, p))
    && (forall i, j :: 0 <= i < j < |best| ==> best[i].node.priority != best[j].node.priority)
  }

  lemma CollectedStep(m: map<int, seq<Checked>>, todo: set<int>, best: seq<Checked>, p: int)
    requires forall q :: q in m ==> m[q] != []
    requires Collected(m, todo, best) && p in todo && p in m && Fastest(m[p]).node.priority == p
    ensures Collected(m, todo - {p}, best + [Fastest(m[p])])
  {
    HasPrioritySnoc(best, Fastest(m[p]));
  }

  method PickFastestPerPriority(nodes: seq<Checked>) returns (best: seq<Checked>)
    ensures IsPick(nodes, best)
  {
    var m := GroupAlive(nodes);
    best := [];
    var todo := m.Keys;
    while exists p :: p in todo
      invariant todo <= m.Keys
      invariant Collected(m, todo, best)
      decreases todo
    {
      var p :| p in todo;
      var fastest := FastestInGroup(m[p]);
      ghost var j := FastestOfGroup(nodes, p);
      CollectedStep(m, todo, best, p);
      best := best + [fastest];
      todo := todo - {p};
    }
    assert todo == {};
    ghost var unsorted := best;
    best := SortByPriority(best);
    SortedIsPick(nodes, m, unsorted, best);
  }

  lemma SortedIsPick(nodes: seq<Checked>, m: map<int, seq<Checked>>, unsorted: seq<Checked>, best: seq<Checked>)
    requires AliveGrouped(nodes, m) && Collected(m, {}, unsorted)
    requires Ascending(best) && forall c :: c in best <==> c in unsorted
    ensures IsPick(nodes, best)
  {
    forall k | 0 <= k < |best| ensures Picked(nodes, best[k]) {
      assert best[k] in unsorted;
      var j := FastestOfGroup(nodes, best[k].node.priority);
    }
    forall i | 0 <= i < |nodes| && nodes[i].alive ensures HasPriority(best, nodes[i].node.priority) {
      var p := nodes[i].node.priority;
      AliveGroupMeaning(nodes, p);
      assert nodes[i] in AliveGroup(nodes, p);
      assert HasPriority(unsorted, p);
      var k :| 0 <= k < |unsorted| && unsorted[k].node.priority == p;
      assert unsorted[k] in best;
    }
  }

  /** Every picked node is one of the checked nodes. */
  lemma PickedFrom(nodes: seq<Checked>, best: seq<Checked>)
    requires IsPick(nodes, best)
    ensures forall c :: c in best ==> c in nodes && c.alive
  {
    forall c | c in best ensures c in nodes && c.alive {
      var k :| 0 <= k < |best| && best[k] == c;
      assert Picked(nodes, best[k]);
      var j :| FastestAt(nodes, best[k].node.priority, j) && nodes[j] == best[k];
    }
  }
}
