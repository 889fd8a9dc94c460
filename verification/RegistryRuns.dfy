/** The registry over whole runs: adverts, prunes, health checks, drops and admin requests interleave as
    atomic steps. A health round spans many of them: its start, and for each network a check and a
    `SetBest`. */
module RegistryRuns {
  import opened Common
  import opened Nodes
  import opened Pick
  import opened Health
  import opened Merge
  import opened RegistryModel

  /** `pending` holds the networks the round under way has still to check: `None` for the network registered
      under that name, `Some(nodes)` when that one was replaced since the round started, for the worker
      keeps the old one, with the nodes `nodes`. `inflight` holds the pick of each network whose check has
      run but has not been stored yet; `drops` the URLs marked as fatally broken since the last drain. */
  datatype State = State(nets: map<string, Net>, pending: map<string, Option<seq<Node>>>,
                         inflight: map<string, seq<Checked>>, drops: set<string>)

  /** The nodes the worker of a pending network checks. */
  function ToCheck(s: State, n: string): seq<Node>
    requires n in s.pending
  {
    match s.pending[n]
    case Some(nodes) => nodes
    case None => if n in s.nets then s.nets[n].all else []
  }

  datatype Step =
    | Advert(msg: seq<NetworkAdvert>, clock: Clock)
    | Prune(now: Time)
    | RoundStart
    | CheckStart(name: string, probes: seq<Probe>, picks: seq<Checked>)
    | CheckDone(name: string)
    | Drain(urls: seq<string>)
    | AddNetwork(name: string, nodes: seq<Node>, probes: seq<Probe>, picks: seq<Checked>)
    | AddNode(name: string, node: Node, ping: int)
    | DeleteNode(name: string, url: string)
    | Rejected(fatal: set<string>)

  /** What the code does, whatever it leads to: a round and its drain wait for all checks before. An admin
      request whose own health check finds no healthy node is rejected; all it leaves behind are the
      marks of that check. */
  ghost predicate Enabled(s: State, a: Step) {
    match a
    case Advert(_, _) => true
    case Prune(_) => true
    case RoundStart => s.pending == map[] && s.inflight == map[]
    case CheckStart(n, probes, picks) =>
      n in s.pending && |probes| == |ToCheck(s, n)| && IsPick(Results(ToCheck(s, n), probes), picks)
    case CheckDone(n) => n in s.inflight
    case Drain(urls) => s.pending == map[] && s.inflight == map[] && forall u :: u in urls <==> u in s.drops
    case AddNetwork(_, nodes, probes, picks) =>
      |probes| == |nodes| && IsPick(Results(nodes, probes), picks) && picks != []
    case AddNode(n, _, _) => n in s.nets
    case DeleteNode(n, _) => n in s.nets
    case Rejected(_) => true
  }

  ghost function Apply(s: State, a: Step): State
    requires Enabled(s, a)
  {
    match a
    case Advert(msg, clock) => s.(nets := AfterAdverts(s.nets, msg, clock))
    case Prune(now) => s.(nets := ApplyAll(s.nets, Pruning(now)))
    case RoundStart => s.(pending := map n | n in s.nets :: None)
    case CheckStart(n, probes, picks) =>
      s.(pending := s.pending - {n}, inflight := s.inflight[n := picks],
         drops := s.drops + FatalUrls(ToCheck(s, n), probes))
    case CheckDone(n) =>
      s.(nets := if n in s.nets then s.nets[n := s.nets[n].(best := s.inflight[n])] else s.nets,
         inflight := s.inflight - {n})
    case Drain(urls) => s.(nets := RemoveEach(s.nets, urls), drops := {})
    case AddNetwork(n, nodes, probes, picks) =>
      s.(nets := s.nets[n := Net(nodes, picks, [])],
         pending := if n in s.pending then s.pending[n := Some(ToCheck(s, n))] else s.pending,
         drops := s.drops + FatalUrls(nodes, probes))
    case AddNode(n, node, ping) =>
      s.(nets := s.nets[n := s.nets[n].(all := s.nets[n].all + [node],
                                        best := s.nets[n].best + [Checked(node, true, ping)])])
    case DeleteNode(n, url) => s.(nets := s.nets[n := WithoutListed(s.nets[n], url)])
    case Rejected(fatal) => s.(drops := s.drops + fatal)
  }

  // ----- What every step keeps of one network -----

  /** At most 20 discovered entries, and every best node is in the node list. */
  ghost predicate Sound(net: Net) {
    |net.discovered| <= 20 && forall c :: c in net.best ==> HasUrl(net.all, c.node.url)
  }

  /** A pick that may be stored: strictly ascending, and all its URLs listed. */
  ghost predicate Storable(net: Net, picks: seq<Checked>) {
    Ascending(picks) && forall c :: c in picks ==> HasUrl(net.all, c.node.url)
  }

  lemma {:induction false} FilterUrls(xs: seq<Node>, u: string, url: string)
    ensures HasUrl(Filter(xs, OtherNode(u)), url) <==> HasUrl(xs, url) && url != u
  {
    if xs != [] {
      var n := |xs| - 1;
      FilterUrls(xs[..n], u, url);
      assert xs == xs[..n] + [xs[n]];
      HasUrlSnoc(xs[..n], xs[n], url);
      if xs[n].url != u {
        HasUrlSnoc(Filter(xs[..n], OtherNode(u)), xs[n], url);
      }
    }
  }

  lemma {:induction false} FilterDistinct(xs: seq<Node>, u: string)
    requires UrlDistinct(xs)
    ensures UrlDistinct(Filter(xs, OtherNode(u)))
  {
    if xs != [] {
      var n := |xs| - 1;
      var kept := Filter(xs[..n], OtherNode(u));
      FilterDistinct(xs[..n], u);
      FilterMeaning(xs[..n], OtherNode(u));
      assert forall i :: 0 <= i < |kept| ==> kept[i] in kept;
    }
  }

  lemma {:induction false} FilterAscending(xs: seq<Checked>, u: string)
    requires Ascending(xs)
    ensures Ascending(Filter(xs, OtherChecked(u)))
  {
    if xs != [] {
      var n := |xs| - 1;
      var kept := Filter(xs[..n], OtherChecked(u));
      FilterAscending(xs[..n], u);
      FilterMeaning(xs[..n], OtherChecked(u));
      assert forall i :: 0 <= i < |kept| ==> kept[i] in kept;
    }
  }

  /** Removing a URL, from all lists or from the node and best lists only, keeps a network sound. */
  lemma WithoutSound(net: Net, u: string)
    requires Sound(net)
    ensures Sound(Without(net, u)) && Sound(WithoutListed(net, u))
  {
    FilterMeaning(net.best, OtherChecked(u));
    forall c | c in Filter(net.best, OtherChecked(u)) ensures HasUrl(Filter(net.all, OtherNode(u)), c.node.url) {
      FilterUrls(net.all, u, c.node.url);
    }
  }

  lemma PrunedSound(net: Net, now: Time, picks: seq<Checked>)
    requires Sound(net) && Storable(net, picks)
    ensures Sound(Pruned(net, now)) && Storable(Pruned(net, now), picks)
  {
    forall c | c in net.best || c in picks ensures HasUrl(Pruned(net, now).all, c.node.url) {
      MergeUrls(net.all, Fresh(net.discovered, now), c.node.url);
    }
  }

  // ----- The effect of the compound steps on one network -----

  /** Distinct URLs in the node list, priorities strictly ascending in the best list. */
  predicate Tidy(net: Net) {
    UrlDistinct(net.all) && Ascending(net.best)
  }

  /** No list of the network mentions the URL. */
  predicate Absent(net: Net, url: string) {
    && !HasUrl(net.all, url)
    && (forall c :: c in net.best ==> c.node.url != url)
    && (forall d :: d in net.discovered ==> d.node.url != url)
  }

  predicate Mentions(msg: seq<NetworkAdvert>, url: string) {
    exists i, j :: 0 <= i < |msg| && 0 <= j < |msg[i].nodes| && msg[i].nodes[j].url == url
  }

  lemma AdvertiseAppends(net: Net, adv: seq<Advertised>, expiry: nat -> Time)
    ensures var after := Advertise(net, adv, expiry);
            && after.all == net.all && after.best == net.best
            && (|net.discovered| <= MAX_DISCOVERED ==> |after.discovered| <= MAX_DISCOVERED)
            && forall d :: d in after.discovered ==>
                 d in net.discovered || exists j :: 0 <= j < |adv| && adv[j].url == d.node.url
  {
    var more := AdvertAppends(net.all, |net.discovered|, adv, expiry);
    var news := News(net.all, adv);
    FilterMeaning(adv, Unlisted(net.all));
    forall d | d in more ensures exists j :: 0 <= j < |adv| && adv[j].url == d.node.url {
      var k :| 0 <= k < |more| && more[k] == d;
      var a := news[Wrap(k, |news|)];
      assert a in news;
      var j :| 0 <= j < |adv| && adv[j] == a;
    }
  }

  lemma {:induction false} AdvertsAt(nets: map<string, Net>, msg: seq<NetworkAdvert>, clock: Clock, n: string)
    requires n in nets
    ensures var after := AfterAdverts(nets, msg, clock);
            && n in after && after[n].all == nets[n].all && after[n].best == nets[n].best
            && (|nets[n].discovered| <= MAX_DISCOVERED ==> |after[n].discovered| <= MAX_DISCOVERED)
            && forall d :: d in after[n].discovered ==> d in nets[n].discovered || Mentions(msg, d.node.url)
  {
    if msg != [] {
      var k := |msg| - 1;
      AdvertsAt(nets, msg[..k], clock, n);
      var before := AfterAdverts(nets, msg[..k], clock);
      if msg[k].name == n {
        AdvertiseAppends(before[n], msg[k].nodes, Expiry(clock, k));
      }
      forall url | Mentions(msg[..k], url) ensures Mentions(msg, url) {
        var i, j :| 0 <= i < |msg[..k]| && 0 <= j < |msg[..k][i].nodes| && msg[..k][i].nodes[j].url == url;
        assert msg[i].nodes[j].url == url;
      }
    }
  }

  lemma {:induction false} AdvertsKeys(nets: map<string, Net>, msg: seq<NetworkAdvert>, clock: Clock)
    ensures AfterAdverts(nets, msg, clock).Keys == nets.Keys
  {
    if msg != [] {
      AdvertsKeys(nets, msg[..|msg| - 1], clock);
    }
  }

  lemma WithoutTidy(net: Net, u: string)
    requires Tidy(net)
    ensures Tidy(Without(net, u)) && Tidy(WithoutListed(net, u))
  {
    FilterDistinct(net.all, u);
    FilterAscending(net.best, u);
  }

  lemma WithoutAbsent(net: Net, removed: string, url: string)
    ensures Absent(net, url) || url == removed ==> Absent(Without(net, removed), url)
    ensures Absent(net, url) ==> Absent(WithoutListed(net, removed), url)
  {
    FilterUrls(net.all, removed, url);
    FilterMeaning(net.best, OtherChecked(removed));
    FilterMeaning(net.discovered, OtherEntry(removed));
  }

  lemma {:induction false} RemovedAt(nets: map<string, Net>, urls: seq<string>, n: string)
    requires n in nets
    ensures n in RemoveEach(nets, urls)
    ensures Sound(nets[n]) ==> Sound(RemoveEach(nets, urls)[n])
    ensures Tidy(nets[n]) ==> Tidy(RemoveEach(nets, urls)[n])
  {
    if urls != [] {
      var k := |urls| - 1;
      RemovedAt(nets, urls[..k], n);
      var before := RemoveEach(nets, urls[..k])[n];
      if Sound(before) { WithoutSound(before, urls[k]); }
      if Tidy(before) { WithoutTidy(before, urls[k]); }
    }
  }

  lemma {:induction false} RemovedAbsent(nets: map<string, Net>, urls: seq<string>, n: string, url: string)
    requires n in nets && (Absent(nets[n], url) || url in urls)
    ensures n in RemoveEach(nets, urls) && Absent(RemoveEach(nets, urls)[n], url)
  {
    if urls != [] {
      var k := |urls| - 1;
      RemovedAt(nets, urls[..k], n);
      if url in urls { InInit(urls, url); }
      if Absent(nets[n], url) || url in urls[..k] {
        RemovedAbsent(nets, urls[..k], n, url);
      }
      WithoutAbsent(RemoveEach(nets, urls[..k])[n], urls[k], url);
    }
  }

  // ----- The invariants -----

  /** The network `n` is sound, what is in flight for it may be stored, and it is itself what the round will
      check. */
  ghost predicate SoundAt(s: State, n: string) {
    && (n in s.nets ==> Sound(s.nets[n]))
    && (n in s.pending ==> n in s.nets && s.pending[n].None?)
    && (n in s.inflight ==> n in s.nets && Storable(s.nets[n], s.inflight[n]))
  }

  ghost predicate Consistent(s: State) {
    forall n {:trigger SoundAt(s, n)} :: SoundAt(s, n)
  }

  ghost predicate AllTidy(s: State) {
    forall n {:trigger s.nets[n]} :: n in s.nets ==> Tidy(s.nets[n])
  }

  /** No admin request replaces a network between the start of a round and the end of its check, or deletes
      from a network whose check is in flight. */
  predicate Settled(s: State, a: Step) {
    && (a.AddNetwork? ==> a.name !in s.pending && a.name !in s.inflight)
    && (a.DeleteNode? ==> a.name !in s.inflight)
  }

  /** Admin requests that cannot repeat a URL: no `AddNode`, and only duplicate-free new networks. */
  predicate DuplicateFree(a: Step) {
    !a.AddNode? && (a.AddNetwork? ==> UrlDistinct(a.nodes))
  }

  lemma PickStorable(nodes: seq<Node>, probes: seq<Probe>, picks: seq<Checked>, net: Net)
    requires |probes| == |nodes| && IsPick(Results(nodes, probes), picks) && net.all == nodes
    ensures Storable(net, picks)
  {
    BestIsChecked(nodes, probes, picks);
    forall c | c in picks ensures HasUrl(nodes, c.node.url) {
      var i :| 0 <= i < |nodes| && nodes[i] == c.node;
    }
  }

  lemma AddNodeSound(net: Net, node: Node, c: Checked, picks: seq<Checked>)
    requires Sound(net) && c.node == node && Storable(net, picks)
    ensures Sound(net.(all := net.all + [node], best := net.best + [c]))
    ensures Storable(net.(all := net.all + [node], best := net.best + [c]), picks)
  {
    forall d | d in net.best + [c] || d in picks ensures HasUrl(net.all + [node], d.node.url) {
      HasUrlSnoc(net.all, node, d.node.url);
    }
  }

  lemma ConsistentAt(s: State, a: Step, n: string)
    requires Consistent(s) && Enabled(s, a) && Settled(s, a)
    ensures SoundAt(Apply(s, a), n)
  {
    assert SoundAt(s, n);
    match a
    case Advert(msg, clock) =>
      AdvertsKeys(s.nets, msg, clock);
      if n in s.nets { AdvertsAt(s.nets, msg, clock, n); }
    case Prune(now) =>
      if n in s.nets {
        PrunedSound(s.nets[n], now, if n in s.inflight then s.inflight[n] else []);
      }
    case RoundStart =>
    case CheckStart(name, probes, picks) =>
      assert SoundAt(s, name);
      PickStorable(s.nets[name].all, probes, picks, s.nets[name]);
    case CheckDone(name) => assert SoundAt(s, name);
    case Drain(urls) =>
      RemoveEachKeys(s.nets, urls);
      if n in s.nets { RemovedAt(s.nets, urls, n); }
    case AddNetwork(name, nodes, probes, picks) => PickStorable(nodes, probes, picks, Net(nodes, picks, []));
    case AddNode(name, node, ping) =>
      if n == name {
        AddNodeSound(s.nets[n], node, Checked(node, true, ping), if n in s.inflight then s.inflight[n] else []);
      }
    case DeleteNode(name, url) =>
      if n == name { WithoutSound(s.nets[n], url); }
    case Rejected(fatal) =>
  }

  lemma TidyAt(s: State, a: Step, n: string)
    requires Consistent(s) && AllTidy(s) && Enabled(s, a) && DuplicateFree(a) && n in Apply(s, a).nets
    ensures Tidy(Apply(s, a).nets[n])
  {
    assert n in s.nets ==> Tidy(s.nets[n]);
    match a
    case Advert(msg, clock) =>
      AdvertsKeys(s.nets, msg, clock);
      AdvertsAt(s.nets, msg, clock, n);
    case Prune(now) => MergeKeeps(s.nets[n].all, Fresh(s.nets[n].discovered, now));
    case RoundStart =>
    case CheckStart(name, probes, picks) =>
    case CheckDone(name) => assert SoundAt(s, name);
    case Drain(urls) =>
      RemoveEachKeys(s.nets, urls);
      RemovedAt(s.nets, urls, n);
    case AddNetwork(name, nodes, probes, picks) => PickStorable(nodes, probes, picks, Net(nodes, picks, []));
    case DeleteNode(name, url) =>
      if n == name { WithoutTidy(s.nets[n], url); }
    case Rejected(fatal) =>
  }

  ghost predicate Legal(s: State, acts: seq<Step>)
    decreases |acts|, 0
  {
    acts == [] || (Legal(s, acts[..|acts| - 1])
                   && Enabled(Exec(s, acts[..|acts| - 1]), acts[|acts| - 1]))
  }

  ghost function Exec(s: State, acts: seq<Step>): State
    requires Legal(s, acts)
    decreases |acts|, 1
  {
    if acts == [] then s else Apply(Exec(s, acts[..|acts| - 1]), acts[|acts| - 1])
  }

  /** Every step of the run is settled when it happens. */
  ghost predicate Undisturbed(s: State, acts: seq<Step>)
    requires Legal(s, acts)
    decreases |acts|
  {
    acts == [] || (Undisturbed(s, acts[..|acts| - 1]) && Settled(Exec(s, acts[..|acts| - 1]), acts[|acts| - 1]))
  }

  /** In every run, with `AddNode` steps too: at most 20 discovered entries, and best URLs are listed. */
  lemma {:induction false} AlwaysConsistent(s: State, acts: seq<Step>)
    requires Consistent(s) && Legal(s, acts) && Undisturbed(s, acts)
    ensures Consistent(Exec(s, acts))
  {
    if acts != [] {
      AlwaysConsistent(s, acts[..|acts| - 1]);
      forall n ensures SoundAt(Exec(s, acts), n) {
        ConsistentAt(Exec(s, acts[..|acts| - 1]), acts[|acts| - 1], n);
      }
    }
  }

  /** In every run of duplicate-free steps: URL-distinct node lists and strictly ascending best lists. */
  lemma {:induction false} AlwaysTidy(s: State, acts: seq<Step>)
    requires Consistent(s) && AllTidy(s) && Legal(s, acts) && Undisturbed(s, acts)
    requires forall i :: 0 <= i < |acts| ==> DuplicateFree(acts[i])
    ensures AllTidy(Exec(s, acts))
  {
    if acts != [] {
      AlwaysTidy(s, acts[..|acts| - 1]);
      AlwaysConsistent(s, acts[..|acts| - 1]);
      forall n | n in Exec(s, acts).nets ensures Tidy(Exec(s, acts).nets[n]) {
        TidyAt(Exec(s, acts[..|acts| - 1]), acts[|acts| - 1], n);
      }
    }
  }

  /** The registry as it is built from configuration: nothing picked, nothing discovered. */
  function Configured(cfgs: map<string, seq<Node>>): map<string, Net> {
    map n | n in cfgs :: Net(cfgs[n], [], [])
  }

  function Initial(cfgs: map<string, seq<Node>>): State {
    State(Configured(cfgs), map[], map[], {})
  }

  /** A configured registry is consistent, and tidy exactly when no configured network repeats a URL. */
  lemma InitialConsistent(cfgs: map<string, seq<Node>>)
    ensures Consistent(Initial(cfgs))
    ensures AllTidy(Initial(cfgs)) <==> forall n :: n in cfgs ==> UrlDistinct(cfgs[n])
  {
    var s := Initial(cfgs);
    forall n | n in cfgs ensures Tidy(s.nets[n]) <==> UrlDistinct(cfgs[n]) {
    }
    if AllTidy(s) {
      forall n | n in cfgs ensures UrlDistinct(cfgs[n]) {
        assert Tidy(s.nets[n]);
      }
    }
  }

  /** So the invariants hold in every undisturbed run of a configured registry. */
  lemma FromConfigs(cfgs: map<string, seq<Node>>, acts: seq<Step>)
    requires Legal(Initial(cfgs), acts) && Undisturbed(Initial(cfgs), acts)
    ensures Consistent(Exec(Initial(cfgs), acts))
    ensures (forall n :: n in cfgs ==> UrlDistinct(cfgs[n])) && (forall i :: 0 <= i < |acts| ==> DuplicateFree(acts[i]))
            ==> AllTidy(Exec(Initial(cfgs), acts))
  {
    InitialConsistent(cfgs);
    AlwaysConsistent(Initial(cfgs), acts);
    if AllTidy(Initial(cfgs)) && forall i :: 0 <= i < |acts| ==> DuplicateFree(acts[i]) {
      AlwaysTidy(Initial(cfgs), acts);
    }
  }

  /** Exactly when an `AddNode` request keeps a network tidy. */
  lemma AddNodeTidyIff(net: Net, node: Node, ping: int)
    requires Tidy(net)
    ensures Tidy(net.(all := net.all + [node], best := net.best + [Checked(node, true, ping)])) <==>
            !HasUrl(net.all, node.url)
            && (net.best == [] || net.best[|net.best| - 1].node.priority < node.priority)
  {
    var all, best := net.all + [node], net.best + [Checked(node, true, ping)];
    if i :| 0 <= i < |net.all| && net.all[i].url == node.url {
      assert all[i].url == all[|net.all|].url;
    }
    if net.best != [] {
      assert best[|net.best| - 1] == net.best[|net.best| - 1] && best[|net.best|].node == node;
    }
  }

  /** Whatever admin requests did to the best list, the next stored check puts it back in order. */
  lemma CheckRestoresOrder(s: State, name: string)
    requires Consistent(s) && name in s.inflight
    ensures name in s.nets
    ensures var net := Apply(s, CheckDone(name)).nets[name]; Ascending(net.best) && Sound(net)
  {
    assert SoundAt(s, name);
  }

  /** Why `Settled` is needed: a deletion that hits a network between its snapshot and its `SetBest`
      leaves the network sound, once the check is stored, exactly when the pick did not contain the
      deleted URL. */
  lemma DeleteDuringCheck(s: State, name: string, url: string)
    requires Consistent(s) && name in s.inflight && Enabled(s, DeleteNode(name, url))
    ensures var t := Apply(s, DeleteNode(name, url));
            Sound(Apply(t, CheckDone(name)).nets[name]) <==>
            forall c :: c in s.inflight[name] ==> c.node.url != url
  {
    assert SoundAt(s, name);
    forall c | c in s.inflight[name]
      ensures HasUrl(Filter(s.nets[name].all, OtherNode(url)), c.node.url) <==> c.node.url != url
    {
      FilterUrls(s.nets[name].all, url, c.node.url);
    }
  }

  /** A prune keeps exactly the unexpired entries of every network and lists exactly their URLs in addition. */
  lemma PruneStepExactly(s: State, now: Time, n: string, url: string) returns (from: seq<nat>)
    requires n in s.nets
    ensures n in Apply(s, Prune(now)).nets
    ensures var before, net := s.nets[n], Apply(s, Prune(now)).nets[n];
            && PickedOut(before.discovered, net.discovered, from)
            && (forall i: nat :: i < |before.discovered| ==> (i in from <==> before.discovered[i].expiresAt > now))
            && before.all <= net.all && net.best == before.best
            && (HasUrl(net.all, url) <==>
                HasUrl(before.all, url)
                || exists d :: d in before.discovered && d.node.url == url && d.expiresAt > now)
  {
    from := PruneExactly(s.nets[n], now);
    MergeKeeps(s.nets[n].all, Fresh(s.nets[n].discovered, now));
  }

  /** From a message to the node list, as two steps of a run: see `AdvertisedIsListed`. */
  lemma {:induction false} AdvertThenPruneStep(s: State, msg: seq<NetworkAdvert>, clock: Clock, i: nat, k: nat,
                                               first: Time, last: Time, now: Time)
    requires NamesOnce(msg) && i < |msg| && msg[i].name in s.nets && k < |msg[i].nodes|
    requires forall j: nat :: first <= clock(i, j) <= last
    requires var net, url := s.nets[msg[i].name], msg[i].nodes[k].url;
             !HasUrl(net.all, url) && url !in EntryUrls(net.discovered) && |net.discovered| + k < 20
    ensures var t := Apply(Apply(s, Advert(msg, clock)), Prune(now)); var url := msg[i].nodes[k].url;
            && msg[i].name in t.nets
            && (now < first + 600_000_000_000 ==> HasUrl(t.nets[msg[i].name].all, url))
            && (now >= last + 600_000_000_000 ==> !HasUrl(t.nets[msg[i].name].all, url))
  {
    FindsRoom(s.nets[msg[i].name], msg[i].nodes, k);
    AdvertisedIsListed(s.nets, msg, clock, i, msg[i].nodes[k].url, first, last, now);
  }

  /** A round checks every network, with the nodes it has when its turn comes. */
  lemma RoundChecksAll(s: State, n: string)
    requires Enabled(s, RoundStart)
    ensures var t := Apply(s, RoundStart);
            t.nets == s.nets && (n in t.pending <==> n in s.nets) && (n in s.nets ==> ToCheck(t, n) == s.nets[n].all)
  {
  }

  /** The check of an admin request marks too: accepted or refused, what it found fatally broken, and only
      that. */
  lemma AdminMarks(s: State, a: Step, url: string)
    requires Enabled(s, a) && (a.AddNetwork? || a.Rejected?)
    ensures url in Apply(s, a).drops <==>
            url in s.drops
            || (a.Rejected? && url in a.fatal)
            || (a.AddNetwork? && exists i :: 0 <= i < |a.probes| && a.nodes[i].url == url
                                             && a.probes[i].Down? && a.probes[i].fatal)
    ensures a.Rejected? ==> Apply(s, a).nets == s.nets
  {
  }

  /** What a check stores is the pick from the nodes it checked, and no other network changes. */
  lemma CheckServes(s: State, name: string, probes: seq<Probe>, picks: seq<Checked>)
    requires Enabled(s, CheckStart(name, probes, picks)) && name in s.nets
    ensures var t := Apply(Apply(s, CheckStart(name, probes, picks)), CheckDone(name));
            && IsPick(Results(ToCheck(s, name), probes), t.nets[name].best)
            && t.pending == s.pending - {name} && t.inflight == s.inflight - {name}
            && t.nets[name].all == s.nets[name].all && t.nets[name].discovered == s.nets[name].discovered
            && t.nets.Keys == s.nets.Keys && forall n :: n in s.nets && n != name ==> t.nets[n] == s.nets[n]
  {
  }

  /** An added node is listed and served at once, last in both lists, and nothing else changes. */
  lemma AddedNodeServes(s: State, name: string, node: Node, ping: int)
    requires name in s.nets
    ensures var t := Apply(s, AddNode(name, node, ping)); var net, old' := t.nets[name], s.nets[name];
            && |net.all| == |old'.all| + 1 && old'.all <= net.all && net.all[|old'.all|] == node
            && |net.best| == |old'.best| + 1 && old'.best <= net.best
            && net.best[|old'.best|].node == node && net.best[|old'.best|].alive
            && net.discovered == old'.discovered
            && t.nets.Keys == s.nets.Keys && forall n :: n in s.nets && n != name ==> t.nets[n] == s.nets[n]
  {
  }

  /** An added network serves the pick from its nodes, an admin deletion takes one URL out of two lists of one
      network; the other networks stay as they are. */
  lemma AdminTouchesOne(s: State, a: Step, n: string)
    requires Enabled(s, a) && (a.AddNetwork? || a.DeleteNode?)
    ensures n in s.nets && n != a.name ==> n in Apply(s, a).nets && Apply(s, a).nets[n] == s.nets[n]
    ensures a.name in Apply(s, a).nets
    ensures var net := Apply(s, a).nets[a.name];
            if a.AddNetwork? then
              net.all == a.nodes && net.discovered == [] && IsPick(Results(a.nodes, a.probes), net.best)
            else
              && NodesLeft(s.nets[a.name].all, net.all, {a.url}) && PicksLeft(s.nets[a.name].best, net.best, {a.url})
              && net.discovered == s.nets[a.name].discovered
  {
    if a.DeleteNode? {
      DeletionReduces(s.nets[a.name], a.url);
    }
  }

  /** Likewise a replacement of a network whose check is in flight: storing the check leaves the new network
      sound exactly when all that was picked from the old one is listed by the new one. */
  lemma ReplaceDuringCheck(s: State, name: string, nodes: seq<Node>, probes: seq<Probe>, picks: seq<Checked>)
    requires name in s.inflight && Enabled(s, AddNetwork(name, nodes, probes, picks))
    ensures var t := Apply(s, AddNetwork(name, nodes, probes, picks));
            Sound(Apply(t, CheckDone(name)).nets[name]) <==>
            forall c :: c in s.inflight[name] ==> HasUrl(nodes, c.node.url)
  {
  }

  /** And when the round has not come to the network yet: its worker, which waits for the limiter, checks the
      nodes of the old network still (`old` with the answers `answers`, from which it picks `best`). */
  lemma ReplaceBeforeCheck(s: State, name: string, nodes: seq<Node>, probes: seq<Probe>, picks: seq<Checked>,
                           answers: seq<Probe>, best: seq<Checked>)
    requires name in s.pending && Enabled(s, AddNetwork(name, nodes, probes, picks))
    requires Enabled(Apply(s, AddNetwork(name, nodes, probes, picks)), CheckStart(name, answers, best))
    ensures |answers| == |ToCheck(s, name)| && IsPick(Results(ToCheck(s, name), answers), best)
    ensures var u := Apply(Apply(s, AddNetwork(name, nodes, probes, picks)), CheckStart(name, answers, best));
            Sound(Apply(u, CheckDone(name)).nets[name]) <==> forall c :: c in best ==> HasUrl(nodes, c.node.url)
  {
    var t := Apply(s, AddNetwork(name, nodes, probes, picks));
    assert ToCheck(t, name) == ToCheck(s, name);
  }

  // ----- Dropped stays dropped -----

  /** No list of any network, registered or still to be checked, and no pick in flight mentions the URL. */
  ghost predicate Gone(s: State, url: string) {
    && (forall n {:trigger s.pending[n]} :: n in s.pending ==> !HasUrl(ToCheck(s, n), url))
    && (forall n {:trigger s.nets[n]} :: n in s.nets ==> Absent(s.nets[n], url))
    && (forall n {:trigger s.inflight[n]} :: n in s.inflight ==> forall c :: c in s.inflight[n] ==> c.node.url != url)
  }

  /** The step is an advert or an admin add that names the URL. */
  predicate Names(a: Step, url: string) {
    match a
    case Advert(msg, _) => Mentions(msg, url)
    case AddNetwork(_, nodes, _, _) => HasUrl(nodes, url)
    case AddNode(_, node, _) => node.url == url
    case _ => false
  }

  lemma PickAbsent(nodes: seq<Node>, probes: seq<Probe>, picks: seq<Checked>, url: string)
    requires |probes| == |nodes| && IsPick(Results(nodes, probes), picks) && !HasUrl(nodes, url)
    ensures forall c :: c in picks ==> c.node.url != url
  {
    PickStorable(nodes, probes, picks, Net(nodes, [], []));
  }

  lemma AbsentAt(s: State, a: Step, url: string, n: string)
    requires Gone(s, url) && Enabled(s, a) && !Names(a, url) && n in Apply(s, a).nets
    ensures Absent(Apply(s, a).nets[n], url)
  {
    assert n in s.nets ==> Absent(s.nets[n], url);
    match a
    case Advert(msg, clock) =>
      AdvertsKeys(s.nets, msg, clock);
      AdvertsAt(s.nets, msg, clock, n);
    case Prune(now) =>
      FilterMeaning(s.nets[n].discovered, Unexpired(now));
      MergeUrls(s.nets[n].all, Fresh(s.nets[n].discovered, now), url);
    case RoundStart =>
    case CheckStart(name, probes, picks) =>
    case CheckDone(name) => assert forall c :: c in s.inflight[name] ==> c.node.url != url;
    case Drain(urls) =>
      RemoveEachKeys(s.nets, urls);
      RemovedAbsent(s.nets, urls, n, url);
    case AddNetwork(name, nodes, probes, picks) => PickAbsent(nodes, probes, picks, url);
    case AddNode(name, node, ping) => HasUrlSnoc(s.nets[name].all, node, url);
    case DeleteNode(name, removed) =>
      if n == name { WithoutAbsent(s.nets[n], removed, url); }
    case Rejected(fatal) =>
  }

  lemma GoneStep(s: State, a: Step, url: string)
    requires Gone(s, url) && Enabled(s, a) && !Names(a, url)
    ensures Gone(Apply(s, a), url)
  {
    var t := Apply(s, a);
    forall n | n in t.nets ensures Absent(t.nets[n], url) {
      AbsentAt(s, a, url, n);
    }
    if a.CheckStart? {
      assert !HasUrl(ToCheck(s, a.name), url);
      PickAbsent(ToCheck(s, a.name), a.probes, a.picks, url);
    }
    forall n | n in t.pending ensures !HasUrl(ToCheck(t, n), url) {
      assert n in t.nets ==> Absent(t.nets[n], url);
      assert n in s.pending ==> !HasUrl(ToCheck(s, n), url);
    }
    forall n | n in t.inflight ensures forall c :: c in t.inflight[n] ==> c.node.url != url {
      assert n in s.inflight ==> forall c :: c in s.inflight[n] ==> c.node.url != url;
    }
  }

  /** The drain of a health round removes every marked URL from every list of every network. */
  lemma DrainDrops(s: State, urls: seq<string>, url: string)
    requires Enabled(s, Drain(urls)) && url in s.drops
    ensures Gone(Apply(s, Drain(urls)), url)
  {
    var t := Apply(s, Drain(urls));
    RemoveEachKeys(s.nets, urls);
    forall n | n in t.nets ensures Absent(t.nets[n], url) {
      RemovedAbsent(s.nets, urls, n, url);
    }
  }

  /** And it removes nothing else: every other entry of every list stays, in its order. */
  lemma DrainDropsOnly(s: State, urls: seq<string>)
    requires Enabled(s, Drain(urls))
    ensures EachReduced(s.nets, Apply(s, Drain(urls)).nets, s.drops) && Apply(s, Drain(urls)).drops == {}
  {
    DropReduces(s.nets, urls);
    assert SetOf(urls) == s.drops;
  }

  /** What a check marks for dropping are the nodes it found fatally broken, and only those. */
  lemma CheckMarks(s: State, name: string, probes: seq<Probe>, picks: seq<Checked>, url: string)
    requires Enabled(s, CheckStart(name, probes, picks))
    ensures url in Apply(s, CheckStart(name, probes, picks)).drops <==>
            url in s.drops
            || exists i :: 0 <= i < |probes| && ToCheck(s, name)[i].url == url && probes[i].Down? && probes[i].fatal
  {
  }

  /** Dropped stays dropped: after its drain a URL is in no list of any network, in every later state,
      until an advert or an admin add names it again. */
  lemma {:induction false} DroppedStaysDropped(s: State, urls: seq<string>, url: string, acts: seq<Step>)
    requires Enabled(s, Drain(urls)) && url in s.drops
    requires Legal(Apply(s, Drain(urls)), acts)
    requires forall i :: 0 <= i < |acts| ==> !Names(acts[i], url)
    ensures Gone(Exec(Apply(s, Drain(urls)), acts), url)
  {
    var t := Apply(s, Drain(urls));
    if acts == [] {
      DrainDrops(s, urls, url);
    } else {
      DroppedStaysDropped(s, urls, url, acts[..|acts| - 1]);
      GoneStep(Exec(t, acts[..|acts| - 1]), acts[|acts| - 1], url);
    }
  }

  /** An admin deletion is weaker: it leaves the discovered list alone, so the next prune lists the URL
      again exactly when an unexpired discovered entry still carries it. */
  lemma DeletedComesBackIff(net: Net, url: string, now: Time)
    ensures HasUrl(Pruned(WithoutListed(net, url), now).all, url) <==>
            exists d :: d in net.discovered && d.node.url == url && d.expiresAt > now
  {
    FilterUrls(net.all, url, url);
    MergeUrls(WithoutListed(net, url).all, Fresh(net.discovered, now), url);
    FilterMeaning(net.discovered, Unexpired(now));
    if d :| d in net.discovered && d.node.url == url && d.expiresAt > now {
      assert d in Fresh(net.discovered, now);
    }
  }
}
