/** The handlers and health workers on the registry itself (pkg/api/admin.go, pkg/gossip/state.go,
    cmd/app/health.go): each of them takes a step of the run model. */
module Requests {
  import opened Common
  import opened Nodes
  import opened Pick
  import opened Health
  import opened Merge
  import opened RegistryModel
  import opened Registry
  import Runs = RegistryRuns

  /** Where a health round stands: the networks still to be checked and the picks still to be stored. */
  datatype Progress = Progress(pending: map<string, Option<seq<Node>>>, inflight: map<string, seq<Checked>>)

  /** What the run model sees of a registry, its checker and the round under way. */
  ghost function Seen(reg: Registry, checker: Checker, p: Progress): Runs.State
    reads reg, reg.state.Values, checker
  {
    Runs.State(reg.Nets(), p.pending, p.inflight, checker.dropURLs)
  }

  /** The progress of a round in a given state. */
  function In(s: Runs.State): Progress {
    Progress(s.pending, s.inflight)
  }

  /** The worker of a pending network holds the network `s`: the registered one, or the one that was
      registered when the round started, if that was replaced since. */
  ghost predicate Holds(reg: Registry, p: Progress, name: string, s: NetworkState)
    reads reg, s, s.all, s.best, s.discovered
  {
    && s.Valid() && name in p.pending
    && match p.pending[name]
       case None => name in reg.state && reg.state[name] == s
       case Some(nodes) => reg.Detached(s) && s.net.all == nodes
  }

  /** The registry of a program that starts with these configurations. */
  method InitFromConfigs(cfgs: map<string, seq<Node>>) returns (reg: Registry)
    ensures fresh(reg) && reg.Valid() && fresh(reg.owner.Keys)
    ensures reg.Nets() == Runs.Configured(cfgs)
  {
    reg := new Registry();
    var todo := cfgs.Keys;
    while todo != {}
      invariant todo <= cfgs.Keys
      invariant fresh(reg) && reg.Valid() && fresh(reg.owner.Keys)
      invariant reg.Nets() == map n | n in cfgs && n !in todo :: Net(cfgs[n], [], [])
      decreases todo
    {
      var n :| n in todo;
      StoreNetwork(reg, n, cfgs[n], []);
      todo := todo - {n};
    }
  }

  method ReceiveAdverts(reg: Registry, checker: Checker, msg: seq<NetworkAdvert>, clock: Clock, ghost p: Progress)
    requires reg.Valid() && checker !in reg.owner
    modifies reg`owner, reg.owner.Keys
    ensures reg.Valid() && fresh(reg.owner.Keys - old(reg.owner.Keys))
    ensures Seen(reg, checker, p) == Runs.Apply(old(Seen(reg, checker, p)), Runs.Advert(msg, clock))
  {
    reg.StateHandler(msg, clock);
  }

  method PruneRound(reg: Registry, checker: Checker, now: Time, ghost p: Progress)
    requires reg.Valid() && checker !in reg.owner
    modifies reg`owner, reg.owner.Keys
    ensures reg.Valid() && fresh(reg.owner.Keys - old(reg.owner.Keys))
    ensures Seen(reg, checker, p) == Runs.Apply(old(Seen(reg, checker, p)), Runs.Prune(now))
  {
    reg.PruneAndMerge(now);
  }

  /** The start of a health round hands every worker its network. */
  method StartRound(reg: Registry, checker: Checker) returns (workers: map<string, NetworkState>, ghost p: Progress)
    requires reg.Valid()
    ensures Seen(reg, checker, p) == Runs.Apply(Seen(reg, checker, Progress(map[], map[])), Runs.RoundStart)
    ensures workers.Keys == p.pending.Keys && forall n :: n in workers ==> Holds(reg, p, n, workers[n])
  {
    workers := reg.state;
    p := Progress(map n | n in reg.state :: None, map[]);
    forall n | n in workers ensures Holds(reg, p, n, workers[n]) {
      assert reg.Owns(n, reg.state[n]);
    }
  }

  /** A worker checks the nodes that the network it was handed has now. */
  method CheckNetwork(reg: Registry, checker: Checker, name: string, s: NetworkState, probes: seq<Probe>,
                      ghost p: Progress)
    returns (picks: seq<Checked>)
    requires reg.Valid() && Holds(reg, p, name, s) && |probes| == |s.net.all|
    modifies checker
    ensures reg.Valid()
    ensures Runs.Enabled(old(Seen(reg, checker, p)), Runs.CheckStart(name, probes, picks))
    ensures Seen(reg, checker, Progress(p.pending - {name}, p.inflight[name := picks])) ==
            Runs.Apply(old(Seen(reg, checker, p)), Runs.CheckStart(name, probes, picks))
  {
    assert Runs.ToCheck(Seen(reg, checker, p), name) == s.net.all;
    picks := checker.UpdateNetwork(s.all[..s.nAll], probes);
  }

  /** Later the same worker stores its pick, under the name of its network. */
  method StoreCheck(reg: Registry, checker: Checker, name: string, picks: seq<Checked>, ghost p: Progress)
    requires reg.Valid() && checker !in reg.owner
    requires name in p.inflight && p.inflight[name] == picks
    modifies reg`owner, reg.state.Values
    ensures reg.Valid() && fresh(reg.owner.Keys - old(reg.owner.Keys))
    ensures Seen(reg, checker, p.(inflight := p.inflight - {name})) ==
            Runs.Apply(old(Seen(reg, checker, p)), Runs.CheckDone(name))
  {
    reg.SetBest(name, picks);
  }

  /** The end of a health round, when all its workers are done. */
  method DropRound(reg: Registry, checker: Checker) returns (urls: seq<string>)
    requires reg.Valid() && checker !in reg.owner
    modifies checker, reg.owner.Keys
    ensures reg.Valid() && unchanged(reg)
    ensures var s := old(Seen(reg, checker, Progress(map[], map[])));
            && Runs.Enabled(s, Runs.Drain(urls))
            && Seen(reg, checker, Progress(map[], map[])) == Runs.Apply(s, Runs.Drain(urls))
  {
    ghost var s := Seen(reg, checker, Progress(map[], map[]));
    urls := checker.DrainDropURLs();
    assert reg.Valid() && reg.Nets() == s.nets;
    DropAll(reg, urls);
    assert reg.Nets() == RemoveEach(s.nets, urls);
    DrainAndDrop(s, urls);
  }

  lemma DrainAndDrop(s: Runs.State, urls: seq<string>)
    requires s.pending == map[] && s.inflight == map[] && forall u :: u in urls <==> u in s.drops
    ensures Runs.Enabled(s, Runs.Drain(urls))
    ensures Runs.Apply(s, Runs.Drain(urls)) == Runs.State(RemoveEach(s.nets, urls), map[], map[], {})
  {
  }

  lemma PickIsEmptyIff(nodes: seq<Node>, probes: seq<Probe>, picks: seq<Checked>)
    requires |probes| == |nodes| && IsPick(Results(nodes, probes), picks)
    ensures picks == [] <==> forall i :: 0 <= i < |nodes| ==> probes[i].Down?
  {
    var res := Results(nodes, probes);
    if picks != [] {
      assert Picked(res, picks[0]);
      var j :| FastestAt(res, picks[0].node.priority, j) && res[j] == picks[0];
      assert probes[j].Up?;
    }
    if i :| 0 <= i < |nodes| && probes[i].Up? {
      assert HasPriority(picks, res[i].node.priority);
    }
  }

  method CheckNew(checker: Checker, nodes: seq<Node>, probes: seq<Probe>) returns (best: seq<Checked>)
    requires |probes| == |nodes|
    modifies checker
    ensures checker.dropURLs == old(checker.dropURLs) + FatalUrls(nodes, probes)
    ensures IsPick(Results(nodes, probes), best)
    ensures best != [] <==> exists i :: 0 <= i < |nodes| && probes[i].Up?
  {
    best := checker.UpdateNetwork(nodes, probes);
    PickIsEmptyIff(nodes, probes, best);
  }

  method StoreNetwork(reg: Registry, name: string, nodes: seq<Node>, best: seq<Checked>)
    requires reg.Valid()
    modifies reg
    ensures reg.Valid() && fresh(reg.owner.Keys - old(reg.owner.Keys))
    ensures reg.Nets() == old(reg.Nets())[name := Net(nodes, best, [])]
    ensures name in old(reg.state) ==> reg.Detached(old(reg.state)[name])
  {
    ghost var before := reg.Nets();
    reg.AddNetwork(name, nodes, best);
    assert reg.Nets().Keys == before.Keys + {name};
  }

  /** A route without its leading and trailing slashes. */
  function TrimSlashes(route: string): (name: string)
    ensures name != "" ==> name[0] != '/' && name[|name| - 1] != '/'
  {
    if route == "" then ""
    else if route[0] == '/' then TrimSlashes(route[1..])
    else if route[|route| - 1] == '/' then TrimSlashes(route[..|route| - 1])
    else route
  }

  predicate OnlySlashes(s: string) {
    forall i :: 0 <= i < |s| ==> s[i] == '/'
  }

  /** The name is the route between two runs of slashes, and neither starts nor ends with one. */
  lemma {:induction false} TrimSlashesMeaning(route: string) returns (before: string, after: string)
    ensures OnlySlashes(before) && OnlySlashes(after) && route == before + TrimSlashes(route) + after
    ensures TrimSlashes(route) != "" ==>
              TrimSlashes(route)[0] != '/' && TrimSlashes(route)[|TrimSlashes(route)| - 1] != '/'
  {
    if route == "" || (route[0] != '/' && route[|route| - 1] != '/') {
      before, after := "", "";
    } else if route[0] == '/' {
      before, after := TrimSlashesMeaning(route[1..]);
      before := "/" + before;
    } else {
      before, after := TrimSlashesMeaning(route[..|route| - 1]);
      after := after + "/";
      SplitLast(route);
    }
  }

  /** An admin adds or replaces a network. A request without a route, a protocol or nodes is refused at once,
      any other unless some node of it is alive. A worker that holds the replaced network keeps it. */
  method AddNetworkRequest(reg: Registry, checker: Checker, route: string, protocol: string, nodes: seq<Node>,
                           probes: seq<Probe>, ghost p: Progress)
    returns (added: bool, ghost step: Runs.Step)
    requires reg.Valid() && checker !in reg.owner && |probes| == |nodes|
    modifies reg, checker
    ensures reg.Valid() && fresh(reg.owner.Keys - old(reg.owner.Keys))
    ensures added <==> route != "" && protocol != "" && exists i :: 0 <= i < |nodes| && probes[i].Up?
    ensures if added
            then step.AddNetwork? && step.name == TrimSlashes(route) && step.nodes == nodes && step.probes == probes
            else step == Runs.Rejected(if route == "" || protocol == "" then {} else FatalUrls(nodes, probes))
    ensures !added ==> unchanged(reg)
    ensures Runs.Enabled(old(Seen(reg, checker, p)), step)
    ensures var t := Runs.Apply(old(Seen(reg, checker, p)), step); Seen(reg, checker, In(t)) == t
    ensures added && TrimSlashes(route) in old(reg.state) ==> reg.Detached(old(reg.state)[TrimSlashes(route)])
  {
    if route == "" || protocol == "" || |nodes| == 0 {
      return false, Runs.Rejected({});
    }
    var name := TrimSlashes(route);
    var best := CheckNew(checker, nodes, probes);
    if |best| == 0 {
      return false, Runs.Rejected(FatalUrls(nodes, probes));
    }
    StoreNetwork(reg, name, nodes, best);
    return true, Runs.AddNetwork(name, nodes, probes, best);
  }

  /** A worker that was handed the network `s` of that name holds it still after such a request, replaced or
      not, with the nodes it had. */
  method AddNetworkDuringRound(reg: Registry, checker: Checker, route: string, protocol: string, nodes: seq<Node>,
                               probes: seq<Probe>, s: NetworkState, ghost p: Progress)
    returns (added: bool, ghost step: Runs.Step)
    requires reg.Valid() && checker !in reg.owner && |probes| == |nodes|
    requires Holds(reg, p, TrimSlashes(route), s)
    modifies reg, checker
    ensures reg.Valid() && s.net == old(s.net)
    ensures Runs.Enabled(old(Seen(reg, checker, p)), step)
    ensures var t := Runs.Apply(old(Seen(reg, checker, p)), step);
            Seen(reg, checker, In(t)) == t && Holds(reg, In(t), TrimSlashes(route), s)
  {
    added, step := AddNetworkRequest(reg, checker, route, protocol, nodes, probes, p);
  }

  method StoreNode(reg: Registry, name: string, node: Node, best: Checked)
    requires reg.Valid() && name in reg.state
    modifies reg`owner, reg.owner.Keys
    ensures reg.Valid() && fresh(reg.owner.Keys - old(reg.owner.Keys))
    ensures reg.Nets() == old(reg.Nets())[name := reg.state[name].net]
    ensures name in reg.state
    ensures var was := old(reg.state[name].net);
            reg.state[name].net == was.(all := was.all + [node], best := was.best + [best])
  {
    reg.AddNode(name, node);
    reg.AppendBest(name, best);
  }

  method CheckOne(checker: Checker, node: Node, probe: Probe) returns (best: seq<Checked>)
    modifies checker
    ensures checker.dropURLs == old(checker.dropURLs) + if probe == Down(true) then {node.url} else {}
    ensures best == [] <==> probe.Down?
    ensures best != [] ==> best[0] == Checked(node, true, probe.ping)
  {
    best := CheckNew(checker, [node], [probe]);
    FatalOfOne(node, probe);
    assert [probe][0] == probe;
    if best != [] {
      FirstOfOne(node, probe, best);
    }
  }

  /** An admin adds a node. An unknown network has no protocol, and without one no node is alive. */
  method AddNodeRequest(reg: Registry, checker: Checker, name: string, node: Node, probe: Probe, ghost p: Progress)
    returns (added: bool, ghost step: Runs.Step)
    requires reg.Valid() && checker !in reg.owner
    modifies reg`owner, reg.owner.Keys, checker
    ensures reg.Valid() && fresh(reg.owner.Keys - old(reg.owner.Keys))
    ensures added <==> name in reg.state && probe.Up?
    ensures if added then step == Runs.AddNode(name, node, probe.ping)
            else step == Runs.Rejected(if name in reg.state && probe == Down(true) then {node.url} else {})
    ensures Runs.Enabled(old(Seen(reg, checker, p)), step)
    ensures Seen(reg, checker, p) == Runs.Apply(old(Seen(reg, checker, p)), step)
  {
    var found := if name in reg.state then probe else Down(false);
    var best := CheckOne(checker, node, found);
    if |best| == 0 {
      return false, Runs.Rejected(if found == Down(true) then {node.url} else {});
    }
    StoreNode(reg, name, node, best[0]);
    return true, Runs.AddNode(name, node, probe.ping);
  }

  lemma FatalOfOne(node: Node, probe: Probe)
    ensures FatalUrls([node], [probe]) == if probe == Down(true) then {node.url} else {}
  {
    assert [probe][0] == probe && [node][0] == node;
  }

  lemma FirstOfOne(node: Node, probe: Probe, picks: seq<Checked>)
    requires IsPick(Results([node], [probe]), picks) && picks != []
    ensures probe.Up? && picks[0] == Checked(node, true, probe.ping)
  {
    assert Picked(Results([node], [probe]), picks[0]);
  }

  /** An admin deletes a URL from a network; an empty URL or an unknown network is an error. */
  method DeleteNodeRequest(reg: Registry, checker: Checker, name: string, url: string, ghost p: Progress)
    returns (deleted: bool)
    requires reg.Valid() && checker !in reg.owner
    modifies reg`owner, reg.state.Values
    ensures reg.Valid() && fresh(reg.owner.Keys - old(reg.owner.Keys))
    ensures deleted <==> url != "" && name in reg.state
    ensures Seen(reg, checker, p) ==
            if deleted then Runs.Apply(old(Seen(reg, checker, p)), Runs.DeleteNode(name, url))
            else old(Seen(reg, checker, p))
  {
    if url == "" {
      return false;
    }
    deleted := reg.DeleteNode(name, url);
  }
}
