/** The health checker (pkg/health/check.go): one network's nodes are probed in order, fatally broken
    URLs are remembered, and the fastest node per priority is picked. */
module Health {
  import opened Common
  import opened Nodes
  import opened Pick

  /** What probing one node came to; a fatal failure is a 4xx other than 429, or a network error that
      will not go away. */
  datatype Probe = Up(ping: int) | Down(fatal: bool)

  function CheckedAs(n: Node, p: Probe): Checked {
    match p
    case Up(ping) => Checked(n, true, ping)
    case Down(_) => Checked(n, false, 0)
  }

  /** The check results, in the order of the nodes. */
  function Results(nodes: seq<Node>, probes: seq<Probe>): (r: seq<Checked>)
    requires |probes| == |nodes|
    ensures |r| == |nodes| && forall i :: 0 <= i < |nodes| ==> r[i] == CheckedAs(nodes[i], probes[i])
  {
    seq(|nodes|, i requires 0 <= i < |nodes| => CheckedAs(nodes[i], probes[i]))
  }

  /** The results keep the nodes and say alive, with its ping, exactly for those that answered. */
  lemma ResultsMeaning(nodes: seq<Node>, probes: seq<Probe>, i: nat)
    requires |probes| == |nodes| && i < |nodes|
    ensures var r := Results(nodes, probes)[i];
            r.node == nodes[i] && (r.alive <==> probes[i].Up?) && (probes[i].Up? ==> r.ping == probes[i].ping)
  {
  }

  function FatalUrls(nodes: seq<Node>, probes: seq<Probe>): set<string>
    requires |probes| == |nodes|
  {
    set i | 0 <= i < |nodes| && probes[i] == Down(true) :: nodes[i].url
  }

  class Checker {
    var dropURLs: set<string>

    constructor ()
      ensures dropURLs == {}
    {
      dropURLs := {};
    }

    method MarkDrop(url: string)
      modifies this
      ensures dropURLs == old(dropURLs) + {url}
    {
      dropURLs := dropURLs + {url};
    }

    /** Returns every URL marked since the last drain, each once, and forgets them. */
    method DrainDropURLs() returns (out: seq<string>)
      modifies this
      ensures dropURLs == {}
      ensures forall u :: u in out <==> u in old(dropURLs)
      ensures forall i, j :: 0 <= i < j < |out| ==> out[i] != out[j]
    {
      out := [];
      var todo := dropURLs;
      while todo != {}
        invariant todo <= dropURLs && forall u :: u in out <==> u in dropURLs && u !in todo
        invariant forall i, j :: 0 <= i < j < |out| ==> out[i] != out[j]
        decreases todo
      {
        var u :| u in todo;
        assert forall i :: 0 <= i < |out| ==> out[i] in out;
        out := out + [u];
        todo := todo - {u};
      }
      dropURLs := {};
    }

    /** `probes` is the behaviour of the upstreams; a protocol without a checker finds every node down. */
    method UpdateNetwork(nodes: seq<Node>, probes: seq<Probe>) returns (best: seq<Checked>)
      requires |probes| == |nodes|
      modifies this
      ensures IsPick(Results(nodes, probes), best)
      ensures dropURLs == old(dropURLs) + FatalUrls(nodes, probes)
    {
      var res: seq<Checked> := [];
      for i := 0 to |nodes|
        invariant res == Results(nodes[..i], probes[..i])
        invariant dropURLs == old(dropURLs) + FatalUrls(nodes[..i], probes[..i])
      {
        FatalSnoc(nodes, probes, i);
        var n := nodes[i];
        if probes[i] == Down(true) {
          MarkDrop(n.url);
        }
        res := res + [CheckedAs(n, probes[i])];
      }
      assert nodes[..|nodes|] == nodes && probes[..|probes|] == probes;
      best := PickFastestPerPriority(res);
    }
  }

  lemma FatalSnoc(nodes: seq<Node>, probes: seq<Probe>, i: nat)
    requires |probes| == |nodes| && i < |nodes|
    ensures FatalUrls(nodes[..i + 1], probes[..i + 1]) ==
            FatalUrls(nodes[..i], probes[..i]) + if probes[i] == Down(true) then {nodes[i].url} else {}
  {
    var a, b := FatalUrls(nodes[..i + 1], probes[..i + 1]), FatalUrls(nodes[..i], probes[..i]);
    forall u | u in a ensures u in b || (probes[i] == Down(true) && u == nodes[i].url) {
      var k :| 0 <= k < i + 1 && probes[..i + 1][k] == Down(true) && nodes[..i + 1][k].url == u;
      assert k < i ==> probes[..i][k] == Down(true) && nodes[..i][k].url == u;
    }
    forall u | u in b ensures u in a {
      var k :| 0 <= k < i && probes[..i][k] == Down(true) && nodes[..i][k].url == u;
      assert probes[..i + 1][k] == Down(true) && nodes[..i + 1][k].url == u;
    }
    assert probes[..i + 1][i] == probes[i] && nodes[..i + 1][i] == nodes[i];
  }

  /** A best list only names nodes that were checked and found alive. */
  lemma BestIsChecked(nodes: seq<Node>, probes: seq<Probe>, best: seq<Checked>)
    requires |probes| == |nodes| && IsPick(Results(nodes, probes), best)
    ensures Ascending(best)
    ensures forall c :: c in best ==> c.node in nodes && c.alive
    ensures CheckedUrls(best) <= Urls(nodes)
  {
    PickedFrom(Results(nodes, probes), best);
    forall c | c in best ensures c.node in nodes {
      var i :| 0 <= i < |nodes| && Results(nodes, probes)[i] == c;
      assert c == CheckedAs(nodes[i], probes[i]);
    }
  }

  /** Picked from nodes with distinct URLs, a best list repeats no URL either; so failover calls on the
      registry's best lists meet the hypothesis of the spacing theorem. */
  lemma PickUrlDistinct(nodes: seq<Node>, probes: seq<Probe>, best: seq<Checked>)
    requires |probes| == |nodes| && UrlDistinct(nodes) && IsPick(Results(nodes, probes), best)
    ensures CheckedUrlDistinct(best)
  {
    var res := Results(nodes, probes);
    forall i, j | 0 <= i < j < |best| ensures best[i].node.url != best[j].node.url {
      assert Picked(res, best[i]) && Picked(res, best[j]);
      var a :| FastestAt(res, best[i].node.priority, a) && res[a] == best[i];
      var b :| FastestAt(res, best[j].node.priority, b) && res[b] == best[j];
      assert best[i].node.priority < best[j].node.priority;
      assert a != b && res[a].node == nodes[a] && res[b].node == nodes[b];
    }
  }
}
