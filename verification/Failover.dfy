/** The failover loops of pkg/api/public.go: nodes not throttled at entry are grouped by priority and
    tried until one answers with a 2xx status that is not a disguised rate limit. */
module Failover {
  import opened Common
  import opened Nodes
  import opened Throttle
  import opened StableOrder

  /** What one upstream request came to; `limited` is the verdict of the header and body heuristics. */
  datatype Outcome = NoResponse | Response(status: nat, limited: bool, body: string)

  /** An outcome and the clock reading at the moment it is handled. */
  datatype Answer = Answer(outcome: Outcome, at: Time)

  /** The arbitrary behaviour of the upstreams: what the `k`-th contact of a call answers. */
  type Upstream = (nat, Checked) -> Answer

  predicate RateLimited(o: Outcome) {
    o.Response? && (o.status == 429 || o.limited)
  }

  predicate Succeeds(o: Outcome) {
    o.Response? && !RateLimited(o) && o.status / 100 == 2
  }

  /** The nodes whose URL is not throttled at the moment the grouping pass looks at them. */
  function Admitted(nodes: seq<Checked>, readings: seq<Time>, t: Table): seq<Checked>
    requires |readings| == |nodes|
  {
    if nodes == [] then []
    else
      var n := |nodes| - 1;
      var init := Admitted(nodes[..n], readings[..n], t);
      if Throttled(t, nodes[n].node.url, readings[n]) then init else init + [nodes[n]]
  }

  /** The order in which a call may contact nodes. */
  function Order(nodes: seq<Checked>, readings: seq<Time>, t: Table): seq<Checked>
    requires |readings| == |nodes|
  {
    StableSort(Admitted(nodes, readings, t))
  }

  /** The throttler after the answer `a` of node `c`: a rate limit marks the node, a success resets it, and
      nothing else changes anything. */
  function Answered(t: Table, c: Checked, a: Answer): Table {
    if RateLimited(a.outcome) then After(t, Marked(c.node.url, a.at))
    else if Succeeds(a.outcome) then After(t, Cleared(c.node.url))
    else t
  }

  /** The throttler after contacting `contacted`, in order. */
  function TableAfter(t: Table, contacted: seq<Checked>, up: Upstream): Table {
    if contacted == [] then t
    else
      var n := |contacted| - 1;
      Answered(TableAfter(t, contacted[..n], up), contacted[n], up(n, contacted[n]))
  }

  /** None of the first `k` contacts succeeds. */
  predicate NoneSucceeds(order: seq<Checked>, up: Upstream, k: nat)
    requires k <= |order|
  {
    forall j :: 0 <= j < k ==> !Succeeds(up(j, order[j]).outcome)
  }

  /** A call over `order` turned the throttler `before` into `after`: it contacted the nodes in
      order up to and including the first success (`winner`), or all of them without one. */
  predicate Served(order: seq<Checked>, up: Upstream, before: Table, after: Table, winner: Option<nat>) {
    match winner
    case Some(k) =>
      && k < |order| && NoneSucceeds(order, up, k) && Succeeds(up(k, order[k]).outcome)
      && after == TableAfter(before, order[..k + 1], up)
    case None => NoneSucceeds(order, up, |order|) && after == TableAfter(before, order, up)
  }

  /** Node list, throttler and upstream behaviour determine the winner and the throttler afterwards; so
      the copies of the loop agree. */
  lemma ServedOneWay(order: seq<Checked>, up: Upstream, before: Table, a: Table, w: Option<nat>,
                     a': Table, w': Option<nat>)
    requires Served(order, up, before, a, w) && Served(order, up, before, a', w')
    ensures a == a' && w == w'
  {
  }

  /** Which outcomes count: 429 and the disguised rate limits are rate limits whatever else they say, and a
      success is a status from 200 to 299 that is not one of them. */
  lemma OutcomeKinds(o: Outcome)
    ensures o.Response? && o.status == 429 ==> RateLimited(o) && !Succeeds(o)
    ensures o.Response? && o.status != 429 ==> (RateLimited(o) <==> o.limited)
    ensures o.Response? && !o.limited ==> (Succeeds(o) <==> 200 <= o.status <= 299)
    ensures o.Response? && o.limited ==> !Succeeds(o)
    ensures o.NoResponse? ==> !RateLimited(o) && !Succeeds(o)
  {
  }

  /** The nodes admitted are those at exactly the positions that are not throttled when looked at. */
  lemma {:induction false} AdmittedPositions(nodes: seq<Checked>, readings: seq<Time>, t: Table)
    returns (from: seq<nat>)
    requires |readings| == |nodes|
    ensures PickedOut(nodes, Admitted(nodes, readings, t), from)
    ensures forall i: nat :: i < |nodes| ==> (i in from <==> !Throttled(t, nodes[i].node.url, readings[i]))
  {
    if nodes == [] {
      from := [];
    } else {
      var n := |nodes| - 1;
      var init := AdmittedPositions(nodes[..n], readings[..n], t);
      PickedOutSnoc(nodes, Admitted(nodes[..n], readings[..n], t), init);
      from := if Throttled(t, nodes[n].node.url, readings[n]) then init else init + [n];
    }
  }

  /** `at` are the positions of the nodes not throttled when looked at, each once, by priority and, where that
      is equal, by position. */
  predicate Schedule(nodes: seq<Checked>, readings: seq<Time>, t: Table, at: seq<nat>)
    requires |readings| == |nodes|
  {
    && (forall i: nat :: i < |nodes| ==> (i in at <==> !Throttled(t, nodes[i].node.url, readings[i])))
    && Ranked(nodes, at)
  }

  function Compose(from: seq<nat>, p: seq<nat>): (at: seq<nat>)
    requires forall k :: 0 <= k < |p| ==> p[k] < |from|
    ensures |at| == |p| && forall k :: 0 <= k < |p| ==> at[k] == from[p[k]]
  {
    seq(|p|, k requires 0 <= k < |p| => from[p[k]])
  }

  lemma ComposeCovers(from: seq<nat>, p: seq<nat>, i: nat)
    requires (forall k :: 0 <= k < |p| ==> p[k] < |from|) && Covers(p, |from|)
    ensures i in Compose(from, p) <==> i in from
  {
    if i in from {
      var j: nat :| j < |from| && from[j] == i;
      assert j in p;
      var k :| 0 <= k < |p| && p[k] == j;
      assert Compose(from, p)[k] == i;
    }
  }

  lemma ComposeRanked(xs: seq<Checked>, ys: seq<Checked>, from: seq<nat>, p: seq<nat>)
    requires PickedOut(xs, ys, from) && Ranked(ys, p) && forall k :: 0 <= k < |p| ==> p[k] < |from|
    ensures Ranked(xs, Compose(from, p))
  {
    forall k, l | 0 <= k < l < |p| ensures Before(xs, from[p[k]], from[p[l]]) {
      assert Before(ys, p[k], p[l]);
    }
  }

  /** A call goes through exactly the nodes not throttled at entry, by priority and then by position. */
  lemma OrderPositions(nodes: seq<Checked>, readings: seq<Time>, t: Table) returns (at: seq<nat>)
    requires |readings| == |nodes|
    ensures At(nodes, Order(nodes, readings, t), at) && Schedule(nodes, readings, t, at)
  {
    var admitted := Admitted(nodes, readings, t);
    var from := AdmittedPositions(nodes, readings, t);
    var p := StableSortPositions(admitted);
    at := Compose(from, p);
    ComposeRanked(nodes, admitted, from, p);
    forall i: nat | i < |nodes| ensures i in at <==> !Throttled(t, nodes[i].node.url, readings[i]) {
      ComposeCovers(from, p, i);
    }
  }

  /** The node at position `i` was contacted among the first `n` of a call, and did not succeed. */
  predicate FailedBefore(nodes: seq<Checked>, up: Upstream, at: seq<nat>, i: nat, n: nat)
    requires n <= |at| && i < |nodes|
  {
    exists k: nat :: k < n && at[k] == i && !Succeeds(up(k, nodes[i]).outcome)
  }

  /** Nobody is skipped: a call without a winner contacted every node not throttled at entry, and none of
      them succeeded; a winner was not throttled, succeeded, and every such node that goes before it was
      contacted and did not. */
  lemma NobodySkipped(nodes: seq<Checked>, readings: seq<Time>, up: Upstream, before: Table, after: Table,
                      winner: Option<nat>)
    returns (at: seq<nat>)
    requires |readings| == |nodes| && Served(Order(nodes, readings, before), up, before, after, winner)
    ensures At(nodes, Order(nodes, readings, before), at) && Schedule(nodes, readings, before, at)
    ensures winner.None? ==>
              forall i: nat :: i < |nodes| && !Throttled(before, nodes[i].node.url, readings[i]) ==>
                FailedBefore(nodes, up, at, i, |at|)
    ensures winner.Some? ==>
              var k := winner.value;
              && k < |at| && Succeeds(up(k, nodes[at[k]]).outcome)
              && !Throttled(before, nodes[at[k]].node.url, readings[at[k]])
              && forall i: nat :: i < |nodes| && Before(nodes, i, at[k]) ==>
                   Throttled(before, nodes[i].node.url, readings[i]) || FailedBefore(nodes, up, at, i, k)
  {
    at := OrderPositions(nodes, readings, before);
    var order := Order(nodes, readings, before);
    forall i: nat | i < |nodes| && !Throttled(before, nodes[i].node.url, readings[i])
      ensures winner.None? ==> FailedBefore(nodes, up, at, i, |at|)
      ensures winner.Some? && Before(nodes, i, at[winner.value]) ==> FailedBefore(nodes, up, at, i, winner.value)
    {
      assert i in at;
      var k: nat :| k < |at| && at[k] == i;
      assert order[k] == nodes[i];
      if winner.Some? && k > winner.value {
        assert Before(nodes, at[winner.value], at[k]);
      }
    }
  }

  /** The call has contacted the first `k` nodes, none of which succeeded. */
  predicate Trying(order: seq<Checked>, up: Upstream, before: Table, now: Table, k: nat) {
    k <= |order| && NoneSucceeds(order, up, k) && now == TableAfter(before, order[..k], up)
  }

  lemma OneMore(order: seq<Checked>, up: Upstream, before: Table, now: Table, k: nat)
    requires Trying(order, up, before, now, k) && k < |order|
    ensures TableAfter(before, order[..k + 1], up) == Answered(now, order[k], up(k, order[k]))
  {
    TakeInit(order, k);
  }

  lemma AllTried(order: seq<Checked>, up: Upstream, before: Table, now: Table)
    requires Trying(order, up, before, now, |order|)
    ensures Served(order, up, before, now, None)
  {
    assert order[..|order|] == order;
  }

  function InsertKey(r: seq<int>, p: int): (s: seq<int>)
    requires StrictlyIncreasing(r) && p !in r
    ensures StrictlyIncreasing(s)
    ensures forall q :: q in s <==> q in r || q == p
  {
    if r == [] || r[|r| - 1] < p then r + [p]
    else
      var init, last := r[..|r| - 1], r[|r| - 1];
      assert r == init + [last];
      var s := InsertKey(init, p);
      assert forall i :: 0 <= i < |s| ==> s[i] in s;
      s + [last]
  }

  /** sort.Ints on distinct keys. */
  method SortKeys(ps: seq<int>) returns (r: seq<int>)
    requires forall i, j :: 0 <= i < j < |ps| ==> ps[i] != ps[j]
    ensures StrictlyIncreasing(r)
    ensures forall p :: p in r <==> p in ps
  {
    r := [];
    for i := 0 to |ps|
      invariant StrictlyIncreasing(r)
      invariant forall p :: p in r <==> p in ps[..i]
    {
      assert ps[..i + 1] == ps[..i] + [ps[i]];
      r := InsertKey(r, ps[i]);
    }
    assert ps[..|ps|] == ps;
  }

  /** The bucket of priority `p`, or nothing yet. */
  function Bucket(groups: map<int, seq<Checked>>, p: int): seq<Checked> {
    if p in groups then groups[p] else []
  }

  lemma BucketIsGroup(xs: seq<Checked>, groups: map<int, seq<Checked>>, ps: seq<int>, p: int)
    requires IsGrouping(xs, groups, ps)
    ensures Bucket(groups, p) == Group(xs, p)
  {
    if p !in groups {
      EmptyGroup(xs, p);
    }
  }

  lemma KeysSnoc(groups: map<int, seq<Checked>>, ps: seq<int>, p: int, bucket: seq<Checked>)
    requires KeysOf(groups, ps)
    ensures KeysOf(groups[p := bucket], if p in groups then ps else ps + [p])
  {
    assert (ps + [p])[|ps|] == p;
  }

  lemma BucketSnoc(xs: seq<Checked>, c: Checked, groups: map<int, seq<Checked>>, ps: seq<int>, q: int)
    requires IsGrouping(xs, groups, ps) && (q in groups || q == c.node.priority)
    ensures Group(xs + [c], q) == if q == c.node.priority then Bucket(groups, q) + [c] else groups[q]
  {
    GroupSnoc(xs, c, q);
    BucketIsGroup(xs, groups, ps, q);
  }

  lemma GroupingSnoc(xs: seq<Checked>, c: Checked, groups: map<int, seq<Checked>>, ps: seq<int>)
    requires IsGrouping(xs, groups, ps)
    ensures var p := c.node.priority;
            IsGrouping(xs + [c], groups[p := Bucket(groups, p) + [c]], if p in groups then ps else ps + [p])
  {
    var p := c.node.priority;
    var longer := groups[p := Bucket(groups, p) + [c]];
    KeysSnoc(groups, ps, p, Bucket(groups, p) + [c]);
    forall q | q in longer ensures longer[q] == Group(xs + [c], q) {
      BucketSnoc(xs, c, groups, ps, q);
    }
  }

  lemma SortedGrouping(xs: seq<Checked>, groups: map<int, seq<Checked>>, keys: seq<int>, sorted: seq<int>)
    requires IsGrouping(xs, groups, keys)
    requires StrictlyIncreasing(sorted) && forall p :: p in sorted <==> p in keys
    ensures IsGrouping(xs, groups, sorted)
  {
    forall i | 0 <= i < |sorted| ensures sorted[i] in groups {
      assert sorted[i] in sorted && sorted[i] in keys;
      var k :| 0 <= k < |keys| && keys[k] == sorted[i];
    }
  }

  /** The first pass of every copy: `readings[i]` is the clock when `nodes[i]` is looked at. */
  method GroupUnthrottled(t: Throttler, nodes: seq<Checked>, readings: seq<Time>)
    returns (groups: map<int, seq<Checked>>, priorities: seq<int>)
    requires |readings| == |nodes|
    ensures IsGrouping(Admitted(nodes, readings, t.Now()), groups, priorities)
    ensures StrictlyIncreasing(priorities)
    ensures Flat(groups, priorities) == Order(nodes, readings, t.Now())
  {
    groups := map[];
    priorities := [];
    for i := 0 to |nodes|
      invariant IsGrouping(Admitted(nodes[..i], readings[..i], t.Now()), groups, priorities)
    {
      var n := nodes[i];
      assert nodes[..i + 1][..i] == nodes[..i] && readings[..i + 1][..i] == readings[..i];
      var throttled := t.IsThrottled(n.node.url, readings[i]);
      if throttled {
        continue;
      }
      GroupingSnoc(Admitted(nodes[..i], readings[..i], t.Now()), n, groups, priorities);
      var p := n.node.priority;
      if p !in groups {
        priorities := priorities + [p];
      }
      groups := groups[p := Bucket(groups, p) + [n]];
    }
    assert nodes[..|nodes|] == nodes && readings[..|nodes|] == readings;
    ghost var keys := priorities;
    priorities := SortKeys(priorities);
    SortedGrouping(Admitted(nodes, readings, t.Now()), groups, keys, priorities);
    GroupingIsStableSort(Admitted(nodes, readings, t.Now()), groups, priorities);
  }

  lemma {:induction false} FlatPrefix(groups: map<int, seq<Checked>>, ps: seq<int>, i: nat)
    requires forall k :: 0 <= k < |ps| ==> ps[k] in groups
    requires i < |ps|
    ensures |Flat(groups, ps[..i])| + |groups[ps[i]]| == |Flat(groups, ps[..i + 1])| <= |Flat(groups, ps)|
    ensures Flat(groups, ps)[|Flat(groups, ps[..i])|..|Flat(groups, ps[..i + 1])|] == groups[ps[i]]
    decreases |ps|
  {
    assert ps[..i + 1][..i] == ps[..i];
    if i == |ps| - 1 {
      assert ps[..i + 1] == ps;
    } else {
      var init := ps[..|ps| - 1];
      assert init[..i] == ps[..i] && init[..i + 1] == ps[..i + 1];
      FlatPrefix(groups, init, i);
    }
  }

  /** The walk is before group `i`, and the groups so far held `k` nodes. */
  predicate Passed(groups: map<int, seq<Checked>>, ps: seq<int>, i: nat, k: nat) {
    i <= |ps| && (forall j :: 0 <= j < |ps| ==> ps[j] in groups) && k == |Flat(groups, ps[..i])|
  }

  lemma NextGroup(groups: map<int, seq<Checked>>, ps: seq<int>, order: seq<Checked>, i: nat, k: nat)
    requires Passed(groups, ps, i, k) && i < |ps| && order == Flat(groups, ps)
    ensures var end := k + |groups[ps[i]]|;
            end <= |order| && order[k..end] == groups[ps[i]] && Passed(groups, ps, i + 1, end)
  {
    FlatPrefix(groups, ps, i);
  }

  lemma LastGroup(groups: map<int, seq<Checked>>, ps: seq<int>, order: seq<Checked>, k: nat)
    requires Passed(groups, ps, |ps|, k) && order == Flat(groups, ps)
    ensures k == |order|
  {
    assert ps[..|ps|] == ps;
  }

  lemma SliceAt(xs: seq<Checked>, start: nat, slice: seq<Checked>, j: nat)
    requires start + |slice| <= |xs| && xs[start..start + |slice|] == slice && j < |slice|
    ensures xs[start + j] == slice[j]
  {
  }

  /** The body the copies share: how the answer `a` of node `n` is handled. */
  method Handle(t: Throttler, n: Checked, a: Answer) returns (won: bool)
    modifies t
    ensures won <==> Succeeds(a.outcome)
    ensures t.Now() == Answered(old(t.Now()), n, a)
  {
    if a.outcome.NoResponse? {
      return false;
    }
    if RateLimited(a.outcome) {
      t.Mark429(n.node.url, a.at);
      return false;
    }
    if a.outcome.status / 100 != 2 {
      return false;
    }
    t.Reset(n.node.url);
    return true;
  }

  /** The walk through one priority group, the same in all copies; `k` counts contacts. */
  method TryGroup(t: Throttler, group: seq<Checked>, up: Upstream, k: nat, ghost order: seq<Checked>,
                  ghost before: Table)
    returns (won: Option<Outcome>, k': nat)
    requires Trying(order, up, before, t.Now(), k)
    requires k + |group| <= |order| && order[k..k + |group|] == group
    modifies t
    ensures won.None? ==> k' == k + |group| && Trying(order, up, before, t.Now(), k')
    ensures won.Some? ==> Served(order, up, before, t.Now(), Some(k')) && won.value == up(k', order[k']).outcome
  {
    k' := k;
    for j := 0 to |group|
      invariant k' == k + j && Trying(order, up, before, t.Now(), k')
    {
      SliceAt(order, k, group, j);
      OneMore(order, up, before, t.Now(), k');
      var n := group[j];
      var a := up(k', n);
      var success := Handle(t, n, a);
      if success {
        return Some(a.outcome), k';
      }
      k' := k' + 1;
    }
    return None, k';
  }

  /** The walk through the groups, the same in all copies; `order` is what the groups come to. */
  method TryGroups(t: Throttler, groups: map<int, seq<Checked>>, priorities: seq<int>, up: Upstream,
                   ghost order: seq<Checked>)
    returns (won: Option<Outcome>, ghost winner: Option<nat>)
    requires forall j :: 0 <= j < |priorities| ==> priorities[j] in groups
    requires order == Flat(groups, priorities)
    modifies t
    ensures Served(order, up, old(t.Now()), t.Now(), winner)
    ensures won == if winner.None? then None else Some(up(winner.value, order[winner.value]).outcome)
  {
    ghost var before := t.Now();
    var k := 0;
    for i := 0 to |priorities|
      invariant Passed(groups, priorities, i, k) && Trying(order, up, before, t.Now(), k)
    {
      var group := groups[priorities[i]];
      NextGroup(groups, priorities, order, i, k);
      won, k := TryGroup(t, group, up, k, order, before);
      if won.Some? {
        return won, Some(k);
      }
    }
    LastGroup(groups, priorities, order, k);
    AllTried(order, up, before, t.Now());
    return None, None;
  }

  /** Writes the first success to the client, or 502 when every upstream failed. */
  method TryForwardJSONRPCToNodes(t: Throttler, nodes: seq<Checked>, readings: seq<Time>, up: Upstream)
    returns (status: nat, body: string, ghost winner: Option<nat>)
    requires |readings| == |nodes|
    modifies t
    ensures var order := Order(nodes, readings, old(t.Now()));
            && Served(order, up, old(t.Now()), t.Now(), winner)
            && (winner.Some? ==> var o := up(winner.value, order[winner.value]).outcome;
                                 status == o.status && body == o.body)
            && (winner.None? ==> status == 502 && body == "all upstreams failed")
  {
    var groups, priorities := GroupUnthrottled(t, nodes, readings);
    var won;
    won, winner := TryGroups(t, groups, priorities, up, Flat(groups, priorities));
    if won.Some? {
      return won.value.status, won.value.body, winner;
    }
    return 502, "all upstreams failed", winner;
  }

  /** Reports whether any upstream succeeded. */
  method ForwardFirst2xx(t: Throttler, nodes: seq<Checked>, readings: seq<Time>, up: Upstream)
    returns (ok: bool, ghost winner: Option<nat>)
    requires |readings| == |nodes|
    modifies t
    ensures var order := Order(nodes, readings, old(t.Now()));
            && Served(order, up, old(t.Now()), t.Now(), winner)
            && (ok <==> winner.Some?)
  {
    var groups, priorities := GroupUnthrottled(t, nodes, readings);
    var won;
    won, winner := TryGroups(t, groups, priorities, up, Flat(groups, priorities));
    ok := won.Some?;
  }

  /** Returns the body of the first success, or nothing. */
  method CallFirst2xx(t: Throttler, nodes: seq<Checked>, readings: seq<Time>, up: Upstream)
    returns (body: Option<string>, ghost winner: Option<nat>)
    requires |readings| == |nodes|
    modifies t
    ensures var order := Order(nodes, readings, old(t.Now()));
            && Served(order, up, old(t.Now()), t.Now(), winner)
            && body == if winner.None? then None
                       else Some(up(winner.value, order[winner.value]).outcome.body)
  {
    var groups, priorities := GroupUnthrottled(t, nodes, readings);
    var won;
    won, winner := TryGroups(t, groups, priorities, up, Flat(groups, priorities));
    body := if won.None? then None else Some(won.value.body);
  }

  /** The priority fee endpoint: 503 at once for a network without nodes, 502 when all of them fail. */
  method EthMaxPriorityFee(t: Throttler, nodes: seq<Checked>, readings: seq<Time>, up: Upstream)
    returns (status: nat, body: string, ghost winner: Option<nat>)
    requires |readings| == |nodes|
    modifies t
    ensures var order := Order(nodes, readings, old(t.Now()));
            && Served(order, up, old(t.Now()), t.Now(), winner)
            && (winner.Some? ==> var o := up(winner.value, order[winner.value]).outcome;
                                 status == o.status && body == o.body)
            && (winner.None? ==> if nodes == [] then status == 503 && body == "no healthy ETH nodes"
                                 else status == 502 && body == "no healthy ETH nodes available")
  {
    if |nodes| == 0 {
      NothingToTry(nodes, readings, up, t.Now());
      return 503, "no healthy ETH nodes", None;
    }
    var groups, priorities := GroupUnthrottled(t, nodes, readings);
    var won;
    won, winner := TryGroups(t, groups, priorities, up, Flat(groups, priorities));
    if won.Some? {
      return won.value.status, won.value.body, winner;
    }
    return 502, "no healthy ETH nodes available", winner;
  }

  lemma NothingToTry(nodes: seq<Checked>, readings: seq<Time>, up: Upstream, t: Table)
    requires nodes == [] && |readings| == 0
    ensures Order(nodes, readings, t) == [] && Served([], up, t, t, None)
  {
  }

  // ----- Two requests per node -----

  /** The answers of one node to the two requests of the fee endpoint: the fee history, the priority fee,
      whether their bodies parse, and the body built from them. */
  datatype FeeAnswer = FeeAnswer(history: Outcome, historyParses: bool, priority: Outcome, priorityParses: bool,
                                 body: string, at: Time)

  /** Both as the one contact they are to the throttler; `NoResponse` where the loop just goes on. */
  function AsOne(a: FeeAnswer): Answer {
    var o :=
      if !Succeeds(a.history) then a.history
      else if !a.historyParses then NoResponse
      else if !Succeeds(a.priority) then a.priority
      else if !a.priorityParses then NoResponse
      else Response(200, false, a.body);
    Answer(o, a.at)
  }

  /** A fee contact is a rate limit if the history is one, or the history is usable and the priority fee is
      one; it succeeds if both are usable. */
  lemma AsOneMeaning(a: FeeAnswer)
    ensures RateLimited(AsOne(a).outcome) <==>
            RateLimited(a.history) || (Succeeds(a.history) && a.historyParses && RateLimited(a.priority))
    ensures Succeeds(AsOne(a).outcome) <==>
            Succeeds(a.history) && a.historyParses && Succeeds(a.priority) && a.priorityParses
    ensures AsOne(a).at == a.at
  {
  }

  function AsOneUpstream(fees: (nat, Checked) -> FeeAnswer): Upstream {
    (k: nat, c: Checked) => AsOne(fees(k, c))
  }

  /** How the two answers of node `n` are handled, the second only after a usable first one. */
  method HandleFee(t: Throttler, n: Checked, a: FeeAnswer) returns (won: bool)
    modifies t
    ensures won <==> Succeeds(AsOne(a).outcome)
    ensures t.Now() == Answered(old(t.Now()), n, AsOne(a))
  {
    if a.history.NoResponse? {
      return false;
    }
    if RateLimited(a.history) {
      t.Mark429(n.node.url, a.at);
      return false;
    }
    if a.history.status / 100 != 2 {
      return false;
    }
    if !a.historyParses {
      return false;
    }
    if a.priority.NoResponse? {
      return false;
    }
    if RateLimited(a.priority) {
      t.Mark429(n.node.url, a.at);
      return false;
    }
    if a.priority.status / 100 != 2 {
      return false;
    }
    if !a.priorityParses {
      return false;
    }
    t.Reset(n.node.url);
    return true;
  }

  method TryFeeGroup(t: Throttler, group: seq<Checked>, fees: (nat, Checked) -> FeeAnswer, k: nat,
                     ghost order: seq<Checked>, ghost before: Table)
    returns (won: Option<string>, k': nat)
    requires Trying(order, AsOneUpstream(fees), before, t.Now(), k)
    requires k + |group| <= |order| && order[k..k + |group|] == group
    modifies t
    ensures won.None? ==> k' == k + |group| && Trying(order, AsOneUpstream(fees), before, t.Now(), k')
    ensures won.Some? ==> Served(order, AsOneUpstream(fees), before, t.Now(), Some(k'))
                          && won.value == fees(k', order[k']).body
  {
    k' := k;
    for j := 0 to |group|
      invariant k' == k + j && Trying(order, AsOneUpstream(fees), before, t.Now(), k')
    {
      SliceAt(order, k, group, j);
      OneMore(order, AsOneUpstream(fees), before, t.Now(), k');
      var n := group[j];
      var a := fees(k', n);
      var success := HandleFee(t, n, a);
      if success {
        return Some(a.body), k';
      }
      k' := k' + 1;
    }
    return None, k';
  }

  method TryFeeGroups(t: Throttler, groups: map<int, seq<Checked>>, priorities: seq<int>,
                      fees: (nat, Checked) -> FeeAnswer, ghost order: seq<Checked>)
    returns (won: Option<string>, ghost winner: Option<nat>)
    requires forall j :: 0 <= j < |priorities| ==> priorities[j] in groups
    requires order == Flat(groups, priorities)
    modifies t
    ensures Served(order, AsOneUpstream(fees), old(t.Now()), t.Now(), winner)
    ensures won == if winner.None? then None else Some(fees(winner.value, order[winner.value]).body)
  {
    ghost var before := t.Now();
    var k := 0;
    for i := 0 to |priorities|
      invariant Passed(groups, priorities, i, k) && Trying(order, AsOneUpstream(fees), before, t.Now(), k)
    {
      var group := groups[priorities[i]];
      NextGroup(groups, priorities, order, i, k);
      won, k := TryFeeGroup(t, group, fees, k, order, before);
      if won.Some? {
        return won, Some(k);
      }
    }
    LastGroup(groups, priorities, order, k);
    AllTried(order, AsOneUpstream(fees), before, t.Now());
    return None, None;
  }

  /** The fee endpoint: the fees of the first node that answers both requests, or 502. */
  method EthFee(t: Throttler, nodes: seq<Checked>, readings: seq<Time>, fees: (nat, Checked) -> FeeAnswer)
    returns (status: nat, body: string, ghost winner: Option<nat>)
    requires |readings| == |nodes|
    modifies t
    ensures var order := Order(nodes, readings, old(t.Now()));
            && Served(order, AsOneUpstream(fees), old(t.Now()), t.Now(), winner)
            && (winner.Some? ==> status == 200 && body == fees(winner.value, order[winner.value]).body)
            && (winner.None? ==> status == 502 && body == "fee calc failed")
  {
    if |nodes| == 0 {
      NothingToTry(nodes, readings, AsOneUpstream(fees), t.Now());
      return 502, "fee calc failed", None;
    }
    var groups, priorities := GroupUnthrottled(t, nodes, readings);
    var won;
    won, winner := TryFeeGroups(t, groups, priorities, fees, Flat(groups, priorities));
    if won.Some? {
      return 200, won.value, winner;
    }
    return 502, "fee calc failed", winner;
  }
}
