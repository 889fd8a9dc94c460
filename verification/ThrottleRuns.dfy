/** Whole runs of failover calls that share one throttler. */
module ThrottleRuns {
  import opened Common
  import opened Nodes
  import opened Throttle
  import opened StableOrder
  import opened Failover

  /** What the throttler holds on one URL. */
  datatype Entry = Entry(until: Option<Time>, count: nat)

  function EntryOf(t: Table, url: string): Entry {
    Entry(if url in t.until then Some(t.until[url]) else None, Count(t, url))
  }

  /** The entry of a URL after its one contact in a call. */
  function Contacted(e: Entry, a: Answer): Entry {
    if RateLimited(a.outcome) then Entry(Some(a.at + Backoff(e.count + 1)), e.count + 1)
    else if Succeeds(a.outcome) then Entry(None, 0)
    else e
  }

  function EventsOf(c: Checked, a: Answer): seq<Event> {
    if RateLimited(a.outcome) then [Marked(c.node.url, a.at)]
    else if Succeeds(a.outcome) then [Cleared(c.node.url)]
    else []
  }

  /** The throttler's log after contacting `contacted`, in order. */
  function LogAfter(before: seq<Event>, contacted: seq<Checked>, up: Upstream): seq<Event> {
    if contacted == [] then before
    else
      var n := |contacted| - 1;
      LogAfter(before, contacted[..n], up) + EventsOf(contacted[n], up(n, contacted[n]))
  }

  lemma {:induction false} LogMeansTable(before: seq<Event>, contacted: seq<Checked>, up: Upstream)
    ensures Replay(LogAfter(before, contacted, up)) == TableAfter(Replay(before), contacted, up)
  {
    if contacted != [] {
      var n := |contacted| - 1;
      LogMeansTable(before, contacted[..n], up);
      var log, events := LogAfter(before, contacted[..n], up), EventsOf(contacted[n], up(n, contacted[n]));
      if events == [] {
        assert log + events == log;
      } else {
        ReplaySnoc(log, events[0]);
      }
    }
  }

  lemma EntryStep(log: seq<Event>, c: Checked, a: Answer, url: string)
    ensures EntryOf(Replay(log + EventsOf(c, a)), url) ==
            if c.node.url == url then Contacted(EntryOf(Replay(log), url), a) else EntryOf(Replay(log), url)
  {
    if EventsOf(c, a) == [] {
      assert log + EventsOf(c, a) == log;
    } else {
      ReplaySnoc(log, EventsOf(c, a)[0]);
    }
  }

  /** A call leaves the entries of the URLs it does not contact alone. */
  lemma {:induction false} CallSkips(before: seq<Event>, contacted: seq<Checked>, up: Upstream, url: string)
    requires forall j :: 0 <= j < |contacted| ==> contacted[j].node.url != url
    ensures EntryOf(Replay(LogAfter(before, contacted, up)), url) == EntryOf(Replay(before), url)
  {
    if contacted != [] {
      var n := |contacted| - 1;
      CallSkips(before, contacted[..n], up, url);
      EntryStep(LogAfter(before, contacted[..n], up), contacted[n], up(n, contacted[n]), url);
    }
  }

  /** It changes the entry of each node it contacts by that node's own answer. */
  lemma {:induction false} CallTouches(before: seq<Event>, contacted: seq<Checked>, up: Upstream, j: nat)
    requires CheckedUrlDistinct(contacted) && j < |contacted|
    ensures EntryOf(Replay(LogAfter(before, contacted, up)), contacted[j].node.url) ==
            Contacted(EntryOf(Replay(before), contacted[j].node.url), up(j, contacted[j]))
  {
    var n := |contacted| - 1;
    var url := contacted[j].node.url;
    EntryStep(LogAfter(before, contacted[..n], up), contacted[n], up(n, contacted[n]), url);
    if j == n {
      CallSkips(before, contacted[..n], up, url);
    } else {
      CallTouches(before, contacted[..n], up, j);
    }
  }

  lemma {:induction false} AdmittedMeaning(nodes: seq<Checked>, readings: seq<Time>, t: Table)
    requires |readings| == |nodes|
    ensures forall c :: c in Admitted(nodes, readings, t) ==>
              exists i :: 0 <= i < |nodes| && nodes[i] == c && !Throttled(t, c.node.url, readings[i])
    ensures CheckedUrlDistinct(nodes) ==> CheckedUrlDistinct(Admitted(nodes, readings, t))
  {
    if nodes != [] {
      var n := |nodes| - 1;
      var init := Admitted(nodes[..n], readings[..n], t);
      AdmittedMeaning(nodes[..n], readings[..n], t);
      forall c | c in init
        ensures exists i :: 0 <= i < |nodes| && nodes[i] == c && !Throttled(t, c.node.url, readings[i])
        ensures CheckedUrlDistinct(nodes) ==> c.node.url != nodes[n].node.url
      {
        var i :| 0 <= i < n && nodes[..n][i] == c && !Throttled(t, c.node.url, readings[..n][i]);
        assert nodes[i] == c && readings[i] == readings[..n][i];
      }
      assert forall k :: 0 <= k < |init| ==> init[k] in init;
    }
  }

  /** One failover call: its node list, the clock readings of the grouping pass, and its upstreams. */
  datatype Call = Call(nodes: seq<Checked>, readings: seq<Time>, up: Upstream)

  /** The clock does not run backwards within a call, and its list repeats no URL. */
  ghost predicate CallOk(c: Call) {
    && |c.readings| == |c.nodes| && CheckedUrlDistinct(c.nodes)
    && forall i, k: nat, n :: 0 <= i < |c.readings| ==> c.readings[i] <= c.up(k, n).at
  }

  /** The nodes a call contacts: up to and including its winner, or all without one. */
  function Reached(order: seq<Checked>, winner: Option<nat>): seq<Checked>
    requires winner.Some? ==> winner.value < |order|
  {
    if winner.None? then order else order[..winner.value + 1]
  }

  /** Calls made one after the other: call `i` finds the throttler in state `tables[i]`, initially empty,
      leaves it in state `tables[i + 1]`, and is won by `winners[i]`. */
  ghost predicate IsRun(calls: seq<Call>, tables: seq<Table>, winners: seq<Option<nat>>) {
    && |tables| == |calls| + 1 && |winners| == |calls| && tables[0] == Replay([])
    && forall i :: 0 <= i < |calls| ==>
         CallOk(calls[i]) && Calls(calls[i], tables[i], tables[i + 1], winners[i])
  }

  predicate Calls(c: Call, before: Table, after: Table, winner: Option<nat>)
    requires |c.readings| == |c.nodes|
  {
    Served(Order(c.nodes, c.readings, before), c.up, before, after, winner)
  }

  /** Everything that happened to the throttler in a run, oldest first. */
  ghost function History(calls: seq<Call>, tables: seq<Table>, winners: seq<Option<nat>>): seq<Event>
    requires IsRun(calls, tables, winners)
  {
    if calls == [] then []
    else
      var n := |calls| - 1;
      assert Calls(calls[n], tables[n], tables[n + 1], winners[n]);
      LogAfter(History(calls[..n], tables[..n + 1], winners[..n]),
               Reached(Order(calls[n].nodes, calls[n].readings, tables[n]), winners[n]), calls[n].up)
  }

  /** Every node a call may contact was past its deadline when the call admitted it, hence also when its
      answer is handled. */
  lemma OrderIsDue(c: Call, t: Table)
    requires CallOk(c)
    ensures var order := Order(c.nodes, c.readings, t);
            && CheckedUrlDistinct(order)
            && forall k :: 0 <= k < |order| ==> !Throttled(t, order[k].node.url, c.up(k, order[k]).at)
  {
    var admitted := Admitted(c.nodes, c.readings, t);
    var order := StableSort(admitted);
    AdmittedMeaning(c.nodes, c.readings, t);
    StableSortDistinct(admitted);
    StableSortMeaning(admitted);
    forall k | 0 <= k < |order| ensures !Throttled(t, order[k].node.url, c.up(k, order[k]).at) {
      assert order[k] in admitted;
      var i :| 0 <= i < |c.nodes| && c.nodes[i] == order[k] && !Throttled(t, order[k].node.url, c.readings[i]);
      assert c.readings[i] <= c.up(k, order[k]).at;
    }
  }

  lemma SpacedSnoc(log: seq<Event>, e: Event)
    requires Spaced(log) && (e.Marked? ==> Due(log, e))
    ensures Spaced(log + [e])
  {
    var longer := log + [e];
    forall i | 0 <= i < |longer| && longer[i].Marked? ensures Due(longer[..i], longer[i]) {
      assert longer[..i] == log[..i];
      assert log[..|log|] == log;
      assert i < |log| ==> Due(log[..i], log[i]);
    }
  }

  lemma {:induction false} ContactsKeepSpaced(before: seq<Event>, contacted: seq<Checked>, up: Upstream)
    requires Spaced(before) && CheckedUrlDistinct(contacted)
    requires forall k :: 0 <= k < |contacted| ==>
               !Throttled(Replay(before), contacted[k].node.url, up(k, contacted[k]).at)
    ensures Spaced(LogAfter(before, contacted, up))
  {
    if contacted != [] {
      var n := |contacted| - 1;
      var c, a := contacted[n], up(n, contacted[n]);
      var log := LogAfter(before, contacted[..n], up);
      ContactsKeepSpaced(before, contacted[..n], up);
      CallSkips(before, contacted[..n], up, c.node.url);
      assert EntryOf(Replay(log), c.node.url) == EntryOf(Replay(before), c.node.url);
      if EventsOf(c, a) == [] {
        assert log + EventsOf(c, a) == log;
      } else {
        SpacedSnoc(log, EventsOf(c, a)[0]);
      }
    }
  }

  lemma CallIsSpaced(log: seq<Event>, c: Call, before: Table, after: Table, winner: Option<nat>)
    requires CallOk(c) && Calls(c, before, after, winner) && Replay(log) == before && Spaced(log)
    ensures var reached := Reached(Order(c.nodes, c.readings, before), winner);
            Replay(LogAfter(log, reached, c.up)) == after && Spaced(LogAfter(log, reached, c.up))
  {
    OrderIsDue(c, before);
    var reached := Reached(Order(c.nodes, c.readings, before), winner);
    LogMeansTable(log, reached, c.up);
    ContactsKeepSpaced(log, reached, c.up);
  }

  /** The history is the log of the final throttler, and every mark in it respected the deadlines. */
  lemma {:induction false} RunIsSpaced(calls: seq<Call>, tables: seq<Table>, winners: seq<Option<nat>>)
    requires IsRun(calls, tables, winners)
    ensures Replay(History(calls, tables, winners)) == tables[|calls|]
    ensures Spaced(History(calls, tables, winners))
  {
    if calls != [] {
      var n := |calls| - 1;
      RunIsSpaced(calls[..n], tables[..n + 1], winners[..n]);
      assert Calls(calls[n], tables[n], tables[n + 1], winners[n]);
      CallIsSpaced(History(calls[..n], tables[..n + 1], winners[..n]), calls[n], tables[n], tables[n + 1], winners[n]);
    }
  }

  /** Throttle spacing over whole runs: when a URL is rate-limited at `k` contacts (events `a` to `b` of
      the run's history) with no success of it between, first and last are at least the sum over
      n = 1..k-1 of min(30s * 2^(n-1), 600s) apart. */
  lemma {:induction false} ThrottleSpacing(calls: seq<Call>, tables: seq<Table>, winners: seq<Option<nat>>,
                                           log: seq<Event>, url: string, a: nat, b: nat)
    requires IsRun(calls, tables, winners) && log == History(calls, tables, winners)
    requires KeepsFailing(log, url, a, b)
    ensures var k := |MarkedAt(log, url, a, b + 1)|;
            k >= 2 && log[b].at - log[a].at >= Pauses(k - 1) && Wide(log[b].at - log[a].at, k)
  {
    assert Spaced(log) by {
      RunIsSpaced(calls, tables, winners);
    }
    MarksAreSpread(log, url, a, b);
  }

  /** A strictly ascending list, such as the registry's best nodes, is tried in its own order. */
  lemma AscendingListInOrder(nodes: seq<Checked>, readings: seq<Time>, t: Table)
    requires |readings| == |nodes| && Ascending(nodes)
    ensures Order(nodes, readings, t) == Admitted(nodes, readings, t)
  {
    AdmittedAscending(nodes, readings, t);
    AscendingIsSorted(Admitted(nodes, readings, t));
  }

  lemma {:induction false} AdmittedAscending(nodes: seq<Checked>, readings: seq<Time>, t: Table)
    requires |readings| == |nodes| && Ascending(nodes)
    ensures Ascending(Admitted(nodes, readings, t))
    ensures forall c :: c in Admitted(nodes, readings, t) ==> c in nodes
  {
    if nodes != [] {
      var n := |nodes| - 1;
      var init := Admitted(nodes[..n], readings[..n], t);
      AdmittedAscending(nodes[..n], readings[..n], t);
      assert forall i :: 0 <= i < |init| ==> init[i] in nodes[..n];
    }
  }
}
