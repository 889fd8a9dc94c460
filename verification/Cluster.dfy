/** The whole cluster as a step system: every node owns a membership table, gossip messages and
    announce replies are in flight, and sends may succeed, fail, be delayed or be lost. */
module Cluster {
  import opened Common
  import opened Peers
  import opened Leader
  import opened Gossip

  /** A gossip POST goes to a network address; an announce reply goes back to the caller. */
  datatype Message =
    | Push(to: string, peers: seq<Peer>)
    | Welcome(node: string, peers: seq<Peer>)

  /** `stores` holds the table of every booted node, `addr` the address it booted with, `net` the
      messages in flight, and `awaiting[n]` the target of the POST node `n` is blocked in. */
  datatype System = System(
    stores: map<string, Table>,
    addr: map<string, string>,
    net: multiset<Message>,
    awaiting: map<string, string>)

  const EMPTY := System(map[], map[], multiset{}, map[])

  datatype Action =
    | Boot(node: string, at: string)
    | Join(node: string, at: string, server: string, listing: seq<Peer>)
    | Send(node: string, target: string, plist: seq<Peer>)
    | Deliver(node: string, m: Message)
    | Lose(m: Message)
    | SendOk(node: string)
    | SendFail(node: string)

  function At(addr: map<string, string>, n: string): Option<string> {
    if n in addr then Some(addr[n]) else None
  }

  predicate Fresh(s: System, node: string, at: string) {
    && node !in s.stores && node !in s.addr
    && forall k {:trigger At(s.addr, k)} :: k in s.addr ==> At(s.addr, k) != Some(at)
  }

  ghost predicate Enabled(s: System, a: Action) {
    match a
    case Boot(n, at) => Fresh(s, n, at)
    case Join(n, at, server, listing) =>
      && Fresh(s, n, at) && server in s.stores && server in s.addr
      && IsListing(s.stores[server][n := Peer(n, at, 0)], listing)
    case Send(n, t, plist) =>
      && n in s.stores && n !in s.awaiting && |s.stores[n]| > 1
      && t in s.stores[n] && t != n && IsListing(s.stores[n], plist)
    case Deliver(n, m) =>
      && m in s.net && n in s.stores && n in s.addr
      && (match m case Push(to, _) => s.addr[n] == to case Welcome(node, _) => node == n)
    case Lose(m) => m in s.net
    case SendOk(n) => n in s.awaiting && n in s.stores
    case SendFail(n) => n in s.awaiting && n in s.stores
  }

  /** A start without a successful announce leaves the node alone; a join lets the server add the
      newcomer and puts the reply in flight. */
  ghost function Apply(s: System, a: Action): System
    requires Enabled(s, a)
  {
    match a
    case Boot(n, at) => s.(stores := s.stores[n := Alone(n, at)], addr := s.addr[n := at])
    case Join(n, at, server, listing) =>
      s.(stores := s.stores[server := s.stores[server][n := Peer(n, at, 0)]][n := Alone(n, at)],
         addr := s.addr[n := at],
         net := s.net + multiset{Welcome(n, listing + [Peer(server, s.addr[server], 0)])})
    case Send(n, t, plist) =>
      s.(net := s.net + multiset{Push(s.stores[n][t].addr, plist)}, awaiting := s.awaiting[n := t])
    case Deliver(n, m) =>
      s.(stores := s.stores[n := Merged(s.stores[n], n, m)], net := s.net - multiset{m})
    case Lose(m) => s.(net := s.net - multiset{m})
    case SendOk(n) =>
      s.(stores := s.stores[n := AfterSuccess(s.stores[n], s.awaiting[n])], awaiting := s.awaiting - {n})
    case SendFail(n) =>
      s.(stores := s.stores[n := AfterFailure(s.stores[n], s.awaiting[n])], awaiting := s.awaiting - {n})
  }

  function Merged(t: Table, n: string, m: Message): Table {
    match m
    case Push(_, peers) => AddAll(t, peers)
    case Welcome(_, peers) => Welcomed(t, n, peers)
  }

  ghost predicate Legal(s: System, acts: seq<Action>)
    decreases |acts|, 0
  {
    acts == [] || (Legal(s, acts[..|acts| - 1]) && Enabled(Exec(s, acts[..|acts| - 1]), acts[|acts| - 1]))
  }

  ghost function Exec(s: System, acts: seq<Action>): System
    requires Legal(s, acts)
    decreases |acts|, 1
  {
    if acts == [] then s else Apply(Exec(s, acts[..|acts| - 1]), acts[|acts| - 1])
  }

  // ----- Membership safety -----

  predicate PeerOk(addr: map<string, string>, p: Peer) {
    p.id in addr && p.addr == addr[p.id] && 0 <= p.failures <= 1
  }

  predicate TableOk(addr: map<string, string>, t: Table) {
    forall k {:trigger t[k]} :: k in t ==> t[k].id == k && PeerOk(addr, t[k])
  }

  predicate AllOk(addr: map<string, string>, ps: seq<Peer>) {
    forall p :: p in ps ==> PeerOk(addr, p)
  }

  predicate OneNodePerAddress(addr: map<string, string>) {
    forall a, b {:trigger At(addr, a), At(addr, b)} ::
      a in addr && b in addr && At(addr, a) == At(addr, b) ==> a == b
  }

  /** A booted node has an address and a sound table that contains itself. */
  predicate HomeOk(s: System, n: string) {
    n in s.stores && n in s.addr && n in s.stores[n] && TableOk(s.addr, s.stores[n])
  }

  predicate NetOk(addr: map<string, string>, net: multiset<Message>) {
    forall m :: m in net ==> AllOk(addr, m.peers)
  }

  predicate AwaitOk(nodes: set<string>, awaiting: map<string, string>) {
    forall n :: n in awaiting ==> n in nodes && awaiting[n] != n
  }

  /** Keys match entries, only booted nodes are mentioned and under the address they booted with,
      nobody forgets itself, and failure counts stay 0 or 1. */
  ghost predicate Membership(s: System) {
    && (forall n {:trigger HomeOk(s, n)} :: n in s.stores || n in s.addr ==> HomeOk(s, n))
    && NetOk(s.addr, s.net) && OneNodePerAddress(s.addr) && AwaitOk(s.stores.Keys, s.awaiting)
  }

  lemma {:induction false} AddAllOk(addr: map<string, string>, t: Table, ps: seq<Peer>)
    requires TableOk(addr, t) && AllOk(addr, ps)
    ensures TableOk(addr, AddAll(t, ps))
  {
    if ps != [] {
      AddAllOk(addr, t, ps[..|ps| - 1]);
    }
  }

  /** A merge, by gossip or by welcome, never removes an ID and adds exactly those of the message. */
  lemma MergedIds(t: Table, n: string, m: Message)
    requires n in t
    ensures Merged(t, n, m).Keys == t.Keys + Ids(m.peers)
  {
    match m
    case Push(_, peers) => AddAllContents(t, peers);
    case Welcome(_, peers) =>
      var others := Filter(peers, Except(n));
      AddAllContents(t, others);
      FilterMeaning(peers, Except(n));
      assert forall p :: p in peers && p.id != n ==> p in others;
      assert Ids(others) <= Ids(peers) <= Ids(others) + {n};
  }

  lemma MergedOk(addr: map<string, string>, t: Table, n: string, m: Message)
    requires n in t && TableOk(addr, t) && AllOk(addr, m.peers)
    ensures TableOk(addr, Merged(t, n, m)) && n in Merged(t, n, m)
  {
    MergedIds(t, n, m);
    match m
    case Push(_, peers) => AddAllOk(addr, t, peers);
    case Welcome(_, peers) =>
      FilterMeaning(peers, Except(n));
      AddAllOk(addr, t, Filter(peers, Except(n)));
  }

  lemma ListingOk(addr: map<string, string>, t: Table, ps: seq<Peer>)
    requires TableOk(addr, t) && IsListing(t, ps)
    ensures AllOk(addr, ps)
  {
    ListingContents(t, ps);
  }

  lemma HomeWithTable(s: System, n: string, t: Table, k: string)
    requires n in s.stores && n in t && TableOk(s.addr, t) && HomeOk(s, k) && HomeOk(s, n)
    ensures HomeOk(s.(stores := s.stores[n := t]), k)
  {
  }

  lemma MembershipTable(s: System, n: string, t: Table)
    requires Membership(s) && n in s.stores && n in t && TableOk(s.addr, t)
    ensures Membership(s.(stores := s.stores[n := t]))
  {
    var s' := s.(stores := s.stores[n := t]);
    assert s'.stores.Keys == s.stores.Keys;
    forall k | k in s'.stores || k in s'.addr ensures HomeOk(s', k) {
      assert HomeOk(s, k) && HomeOk(s, n);
      HomeWithTable(s, n, t, k);
    }
  }

  lemma MembershipNet(s: System, m: Message, awaiting: map<string, string>)
    requires Membership(s) && AllOk(s.addr, m.peers)
    requires forall n :: n in awaiting ==> n in s.stores && awaiting[n] != n
    ensures Membership(s.(net := s.net + multiset{m}, awaiting := awaiting))
  {
    var s' := s.(net := s.net + multiset{m}, awaiting := awaiting);
    forall k | k in s'.stores || k in s'.addr ensures HomeOk(s', k) {
      assert HomeOk(s, k);
    }
  }

  lemma MembershipLost(s: System, m: Message)
    requires Membership(s)
    ensures Membership(s.(net := s.net - multiset{m}))
  {
    var s' := s.(net := s.net - multiset{m});
    forall k | k in s'.stores || k in s'.addr ensures HomeOk(s', k) {
      assert HomeOk(s, k);
    }
    forall x | x in s'.net ensures AllOk(s'.addr, x.peers) {
      assert x in s.net;
    }
  }

  lemma MembershipDelivered(s: System, n: string, m: Message)
    requires Membership(s) && m in s.net && n in s.stores
    ensures Membership(s.(stores := s.stores[n := Merged(s.stores[n], n, m)], net := s.net - multiset{m}))
  {
    assert HomeOk(s, n);
    MergedOk(s.addr, s.stores[n], n, m);
    MembershipLost(s, m);
    MembershipTable(s.(net := s.net - multiset{m}), n, Merged(s.stores[n], n, m));
  }

  lemma ReportedOk(addr: map<string, string>, self: string, t: Table, target: string)
    requires TableOk(addr, t) && self in t && target != self
    ensures TableOk(addr, AfterSuccess(t, target)) && self in AfterSuccess(t, target)
    ensures TableOk(addr, AfterFailure(t, target)) && self in AfterFailure(t, target)
  {
    if target in t {
      assert PeerOk(addr, t[target]);
    }
  }

  /** A reported send changes the sender's entry of its target, or drops it; never the own entry. */
  lemma MembershipReported(s: System, n: string, t: Table)
    requires Membership(s) && n in s.stores && n in s.awaiting
    requires t == AfterSuccess(s.stores[n], s.awaiting[n]) || t == AfterFailure(s.stores[n], s.awaiting[n])
    ensures Membership(s.(stores := s.stores[n := t], awaiting := s.awaiting - {n}))
  {
    assert HomeOk(s, n);
    ReportedOk(s.addr, n, s.stores[n], s.awaiting[n]);
    MembershipTable(s, n, t);
    MembershipUnblocked(s.(stores := s.stores[n := t]), n);
  }

  lemma MembershipUnblocked(s: System, n: string)
    requires Membership(s)
    ensures Membership(s.(awaiting := s.awaiting - {n}))
  {
    var s' := s.(awaiting := s.awaiting - {n});
    forall k | k in s'.stores || k in s'.addr ensures HomeOk(s', k) {
      assert HomeOk(s, k);
    }
  }

  lemma TableOkWider(addr: map<string, string>, t: Table, n: string, at: string)
    requires TableOk(addr, t) && n !in addr
    ensures TableOk(addr[n := at], t)
  {
    forall k | k in t ensures PeerOk(addr[n := at], t[k]) {
      assert PeerOk(addr, t[k]);
    }
  }

  lemma AllOkWider(addr: map<string, string>, ps: seq<Peer>, n: string, at: string)
    requires AllOk(addr, ps) && n !in addr
    ensures AllOk(addr[n := at], ps)
  {
  }

  lemma OneNodePerAddressWider(addr: map<string, string>, n: string, at: string)
    requires OneNodePerAddress(addr) && n !in addr
    requires forall k {:trigger At(addr, k)} :: k in addr ==> At(addr, k) != Some(at)
    ensures OneNodePerAddress(addr[n := at])
  {
    var wider := addr[n := at];
    forall a, b | a in wider && b in wider && At(wider, a) == At(wider, b) ensures a == b {
      assert a != n ==> At(addr, a) == At(wider, a);
      assert b != n ==> At(addr, b) == At(wider, b);
    }
  }

  lemma MembershipNewcomer(s: System, n: string, at: string)
    requires Membership(s) && Fresh(s, n, at)
    ensures Membership(s.(stores := s.stores[n := Alone(n, at)], addr := s.addr[n := at]))
  {
    var s' := s.(stores := s.stores[n := Alone(n, at)], addr := s.addr[n := at]);
    forall k | k in s'.stores || k in s'.addr ensures HomeOk(s', k) {
      if k != n {
        assert HomeOk(s, k);
        TableOkWider(s.addr, s.stores[k], n, at);
      }
    }
    forall m | m in s'.net ensures AllOk(s'.addr, m.peers) {
      AllOkWider(s.addr, m.peers, n, at);
    }
    OneNodePerAddressWider(s.addr, n, at);
  }

  /** The server's half of an announce: the newcomer is added and the reply put in flight. */
  lemma MembershipAnnounced(s: System, n: string, server: string, listing: seq<Peer>)
    requires Membership(s) && n in s.addr && server in s.stores
    requires IsListing(s.stores[server][n := Peer(n, s.addr[n], 0)], listing)
    ensures server in s.addr
    ensures Membership(s.(stores := s.stores[server := s.stores[server][n := Peer(n, s.addr[n], 0)]],
                          net := s.net + multiset{Welcome(n, listing + [Peer(server, s.addr[server], 0)])}))
  {
    assert HomeOk(s, server);
    var t := s.stores[server][n := Peer(n, s.addr[n], 0)];
    MembershipTable(s, server, t);
    ListingOk(s.addr, t, listing);
    var reply := Welcome(n, listing + [Peer(server, s.addr[server], 0)]);
    MembershipNet(s.(stores := s.stores[server := t]), reply, s.awaiting);
  }

  lemma MembershipStep(s: System, a: Action)
    requires Membership(s) && Enabled(s, a)
    ensures Membership(Apply(s, a))
  {
    match a
    case Boot(n, at) => MembershipNewcomer(s, n, at);
    case Join(n, at, server, listing) =>
      MembershipNewcomer(s, n, at);
      var s1 := s.(stores := s.stores[n := Alone(n, at)], addr := s.addr[n := at]);
      MembershipAnnounced(s1, n, server, listing);
      var t := s.stores[server][n := Peer(n, at, 0)];
      assert s1.stores[server := t] == s.stores[server := t][n := Alone(n, at)];
    case Send(n, t, plist) =>
      assert HomeOk(s, n);
      ListingOk(s.addr, s.stores[n], plist);
      MembershipNet(s, Push(s.stores[n][t].addr, plist), s.awaiting[n := t]);
    case Deliver(n, m) =>
      MembershipDelivered(s, n, m);
    case Lose(m) => MembershipLost(s, m);
    case SendOk(n) => MembershipReported(s, n, AfterSuccess(s.stores[n], s.awaiting[n]));
    case SendFail(n) => MembershipReported(s, n, AfterFailure(s.stores[n], s.awaiting[n]));
  }

  lemma {:induction false} MembershipKept(s: System, acts: seq<Action>)
    requires Membership(s) && Legal(s, acts)
    ensures Membership(Exec(s, acts))
  {
    if acts != [] {
      MembershipKept(s, acts[..|acts| - 1]);
      MembershipStep(Exec(s, acts[..|acts| - 1]), acts[|acts| - 1]);
    }
  }

  lemma {:induction false} MembershipAlways(acts: seq<Action>)
    requires Legal(EMPTY, acts)
    ensures Membership(Exec(EMPTY, acts))
  {
    MembershipKept(EMPTY, acts);
  }

  /** What a returned POST does to the sender's entry of its target, where it still has one: a success clears
      the failure, a first failure is counted and a second one removes it. No other entry, no other node and no
      message is affected, and the sender is free again. */
  lemma ReportMeaning(s: System, n: string, failed: bool)
    requires Membership(s) && n in s.stores && n in s.awaiting
    ensures var t, u, target := s.stores[n], Apply(s, if failed then SendFail(n) else SendOk(n)), s.awaiting[n];
            && u.stores.Keys == s.stores.Keys && u.addr == s.addr && u.net == s.net && n !in u.awaiting
            && (forall k :: k in s.stores && k != n ==> u.stores[k] == s.stores[k])
            && (forall k :: k != target ==> (k in u.stores[n] <==> k in t) && (k in t ==> u.stores[n][k] == t[k]))
            && (target in u.stores[n] <==> target in t && !(failed && t[target].failures == 1))
            && (target in u.stores[n] ==>
                  u.stores[n][target] == Peer(target, t[target].addr, if failed then 1 else 0))
  {
    var t, target := s.stores[n], s.awaiting[n];
    assert HomeOk(s, n);
    if target in t {
      assert PeerOk(s.addr, t[target]);
    }
  }

  // ----- Growth and termination of failure-free gossip -----

  predicate Steady(a: Action) {
    !a.SendFail?
  }

  /** No failing send, and no node added either. */
  predicate Closed(a: Action) {
    Steady(a) && !a.Boot? && !a.Join?
  }

  predicate AllClosed(acts: seq<Action>) {
    forall i :: 0 <= i < |acts| ==> Closed(acts[i])
  }

  lemma AllClosedConcat(xs: seq<Action>, ys: seq<Action>)
    requires AllClosed(xs) && AllClosed(ys)
    ensures AllClosed(xs + ys)
  {
  }

  lemma StepGrows(s: System, a: Action, n: string)
    requires Membership(s) && Enabled(s, a) && Steady(a) && n in s.stores
    ensures n in Apply(s, a).stores && s.stores[n].Keys <= Apply(s, a).stores[n].Keys
  {
    assert HomeOk(s, n);
    if a.Deliver? {
      assert HomeOk(s, a.node);
      MergedIds(s.stores[a.node], a.node, a.m);
    }
  }

  /** The pairs (node, ID it has not heard of); their number is the sum over nodes of unknown IDs. */
  ghost function Unknown(s: System): set<(string, string)> {
    set n, i | n in s.stores && i in s.stores && i !in s.stores[n] :: (n, i)
  }

  predicate Informs(s: System, a: Action) {
    a.Deliver? && a.node in s.stores && !(Ids(a.m.peers) <= s.stores[a.node].Keys)
  }

  lemma {:induction false} DeliveryIsUnion(s: System, n: string, m: Message)
    requires Membership(s) && Enabled(s, Deliver(n, m))
    ensures var s' := Apply(s, Deliver(n, m));
            && s'.stores[n].Keys == s.stores[n].Keys + Ids(m.peers)
            && AtMost(LeaderOf(s'.stores[n].Keys), LeaderOf(s.stores[n].Keys))
            && forall k :: k in s.stores && k != n ==> s'.stores[k] == s.stores[k]
  {
    assert HomeOk(s, n);
    MergedIds(s.stores[n], n, m);
    LeaderNeverIncreases(s.stores[n].Keys, s.stores[n].Keys + Ids(m.peers));
  }

  /** In a closed step the set of unknown pairs never grows, and a delivery that tells its receiver
      something new shrinks it. */
  lemma UnknownStep(s: System, a: Action)
    requires Membership(s) && Enabled(s, a) && Closed(a)
    ensures |Unknown(Apply(s, a))| <= |Unknown(s)|
    ensures Informs(s, a) ==> |Unknown(Apply(s, a))| < |Unknown(s)|
  {
    var s' := Apply(s, a);
    assert s'.stores.Keys == s.stores.Keys;
    forall n, i | (n, i) in Unknown(s') ensures (n, i) in Unknown(s) {
      StepGrows(s, a, n);
    }
    assert Unknown(s') <= Unknown(s);
    if Informs(s, a) {
      DeliveryIsUnion(s, a.node, a.m);
      var p :| p in a.m.peers && p.id !in s.stores[a.node];
      assert PeerOk(s.addr, p) && HomeOk(s, p.id);
      assert (a.node, p.id) in Unknown(s) && (a.node, p.id) !in Unknown(s');
    }
    SubsetSize(Unknown(s'), Unknown(s));
  }

  /** How many deliveries of a run told their receiver something new. */
  ghost function News(s: System, acts: seq<Action>): nat
    requires Legal(s, acts)
    decreases |acts|
  {
    if acts == [] then 0
    else
      var init := acts[..|acts| - 1];
      News(s, init) + if Informs(Exec(s, init), acts[|acts| - 1]) then 1 else 0
  }

  /** Gossip terminates: however long the run, at most |Unknown(s)| deliveries change anything. */
  lemma {:induction false} GossipTerminates(s: System, acts: seq<Action>)
    requires Membership(s) && Legal(s, acts)
    requires AllClosed(acts)
    ensures News(s, acts) + |Unknown(Exec(s, acts))| <= |Unknown(s)|
  {
    if acts != [] {
      var init := acts[..|acts| - 1];
      GossipTerminates(s, init);
      MembershipKept(s, init);
      UnknownStep(Exec(s, init), acts[|acts| - 1]);
    }
  }

  // ----- Agreement -----

  /** The send `a` would tell the node behind the target's address something new. */
  ghost predicate Enlarges(s: System, a: Action)
    requires Enabled(s, a) && a.Send?
  {
    exists r :: r in s.stores && r in s.addr && s.addr[r] == s.stores[a.node][a.target].addr
                && !(s.stores[a.node].Keys <= s.stores[r].Keys)
  }

  /** Nobody is blocked in a POST and no send that could start now would enlarge a table. */
  ghost predicate Quiescent(s: System) {
    s.awaiting == map[] && forall a: Action :: a.Send? && Enabled(s, a) ==> !Enlarges(s, a)
  }

  predicate Knows(s: System, a: string, b: string) {
    a in s.stores && b in s.stores && b in s.stores[a]
  }

  /** `p` is a chain of "knows" edges, each in either direction. */
  predicate Linked(s: System, p: seq<string>) {
    && p != []
    && (forall i :: 0 <= i < |p| ==> p[i] in s.stores)
    && (forall i :: 0 < i < |p| ==> Knows(s, p[i - 1], p[i]) || Knows(s, p[i], p[i - 1]))
  }

  lemma KnownIsCovered(s: System, a: string, b: string)
    requires Membership(s) && Quiescent(s) && Knows(s, a, b)
    ensures s.stores[a].Keys <= s.stores[b].Keys
  {
    if a != b {
      assert HomeOk(s, a) && HomeOk(s, b) && PeerOk(s.addr, s.stores[a][b]);
      var plist := ListingExists(s.stores[a]);
      SubsetSize({a, b}, s.stores[a].Keys);
      assert |s.stores[a]| == |s.stores[a].Keys|;
      var send := Send(a, b, plist);
      assert Enabled(s, send);
      assert s.addr[b] == s.stores[send.node][send.target].addr;
    }
  }

  lemma {:induction false} AgreementAlongChain(s: System, p: seq<string>)
    requires Membership(s) && Quiescent(s) && Linked(s, p)
    ensures s.stores[p[0]].Keys == s.stores[p[|p| - 1]].Keys
    ensures LeaderOf(s.stores[p[0]].Keys) == LeaderOf(s.stores[p[|p| - 1]].Keys)
  {
    var n := |p| - 1;
    if n > 0 {
      AgreementAlongChain(s, p[..n]);
      var a, b := p[n - 1], p[n];
      assert HomeOk(s, a) && HomeOk(s, b);
      if Knows(s, a, b) {
        KnownIsCovered(s, a, b);
        KnownIsCovered(s, b, a);
      } else {
        KnownIsCovered(s, b, a);
        KnownIsCovered(s, a, b);
      }
    }
  }

  /** The two nodes are linked by some chain of "knows" edges. */
  ghost predicate Connected(s: System, a: string, b: string) {
    exists p :: Linked(s, p) && p[0] == a && p[|p| - 1] == b
  }

  lemma LeaderKnown(s: System, a: string)
    requires Membership(s) && a in s.stores
    ensures Knows(s, a, LeaderOf(s.stores[a].Keys))
  {
    var l := LeaderOf(s.stores[a].Keys);
    assert HomeOk(s, a) && l in s.stores[a];
    assert PeerOk(s.addr, s.stores[a][l]) && HomeOk(s, l);
  }

  /** At quiescence, whatever failed on the way there, two nodes follow the same leader exactly when some
      chain of "knows" edges links them; and then they know the same nodes. */
  lemma SameLeaderIffConnected(s: System, a: string, b: string)
    requires Membership(s) && Quiescent(s) && a in s.stores && b in s.stores
    ensures LeaderOf(s.stores[a].Keys) == LeaderOf(s.stores[b].Keys) <==> Connected(s, a, b)
    ensures Connected(s, a, b) <==> s.stores[a].Keys == s.stores[b].Keys
  {
    if Connected(s, a, b) {
      var p :| Linked(s, p) && p[0] == a && p[|p| - 1] == b;
      AgreementAlongChain(s, p);
    }
    if LeaderOf(s.stores[a].Keys) == LeaderOf(s.stores[b].Keys) {
      var l := LeaderOf(s.stores[a].Keys);
      LeaderKnown(s, a);
      LeaderKnown(s, b);
      assert Linked(s, [a, l, b]);
    }
  }

  /** The same over runs: from an empty cluster, with sends failing and messages delayed or lost. */
  lemma AgreementIff(acts: seq<Action>, a: string, b: string)
    requires Legal(EMPTY, acts) && Quiescent(Exec(EMPTY, acts))
    requires a in Exec(EMPTY, acts).stores && b in Exec(EMPTY, acts).stores
    ensures var s := Exec(EMPTY, acts);
            LeaderOf(s.stores[a].Keys) == LeaderOf(s.stores[b].Keys) <==> Connected(s, a, b)
  {
    MembershipAlways(acts);
    SameLeaderIffConnected(Exec(EMPTY, acts), a, b);
  }

  /** One leader overall, following the least booted ID, exactly when every pair of nodes is linked. */
  lemma OneLeaderIffConnected(s: System)
    requires Membership(s) && Quiescent(s)
    ensures (forall a {:trigger s.stores[a]} :: a in s.stores ==> LeaderOf(s.stores[a].Keys) == LeaderOf(s.stores.Keys))
            <==> forall a, b :: a in s.stores && b in s.stores ==> Connected(s, a, b)
  {
    if forall a, b :: a in s.stores && b in s.stores ==> Connected(s, a, b) {
      forall a | a in s.stores ensures LeaderOf(s.stores[a].Keys) == LeaderOf(s.stores.Keys) {
        forall b | b in s.stores ensures b in s.stores[a] {
          SameLeaderIffConnected(s, a, b);
          assert HomeOk(s, b);
        }
        forall k | k in s.stores[a] ensures k in s.stores {
          assert HomeOk(s, a) && PeerOk(s.addr, s.stores[a][k]) && HomeOk(s, k);
        }
        assert s.stores[a].Keys == s.stores.Keys;
      }
    } else {
      var a, b :| a in s.stores && b in s.stores && !Connected(s, a, b);
      SameLeaderIffConnected(s, a, b);
    }
  }

  /** One node starts the cluster, all others join it. */
  predicate OneBoot(acts: seq<Action>) {
    acts != [] && acts[0].Boot? && forall i :: 0 < i < |acts| ==> !acts[i].Boot?
  }

  /** A run in which one node starts the cluster, all others join by a successful announce, and no
      send fails. Messages may still be delayed or lost. */
  predicate SingleSeed(acts: seq<Action>) {
    OneBoot(acts) && forall i :: 0 <= i < |acts| ==> Steady(acts[i])
  }

  lemma LinkSurvives(s: System, a: Action, p: seq<string>)
    requires Membership(s) && Enabled(s, a) && Steady(a) && Linked(s, p)
    ensures Linked(Apply(s, a), p)
  {
    forall k | k in s.stores
      ensures k in Apply(s, a).stores && s.stores[k].Keys <= Apply(s, a).stores[k].Keys
    {
      StepGrows(s, a, k);
    }
  }

  lemma LinkNewcomer(s: System, a: Action, p: seq<string>)
    requires Membership(s) && Enabled(s, a) && a.Join? && Linked(s, p) && p[|p| - 1] == a.server
    ensures Linked(Apply(s, a), p + [a.node])
  {
    LinkSurvives(s, a, p);
    assert Knows(Apply(s, a), a.server, a.node);
  }

  lemma {:induction false} LinkToSeed(acts: seq<Action>, n: string) returns (p: seq<string>)
    requires Legal(EMPTY, acts) && SingleSeed(acts) && n in Exec(EMPTY, acts).stores
    ensures Linked(Exec(EMPTY, acts), p) && p[0] == acts[0].node && p[|p| - 1] == n
    decreases |acts|
  {
    var init, a := acts[..|acts| - 1], acts[|acts| - 1];
    if init == [] {
      p := [n];
    } else {
      var s := Exec(EMPTY, init);
      MembershipAlways(init);
      if n in s.stores {
        p := LinkToSeed(init, n);
        LinkSurvives(s, a, p);
      } else {
        NewByJoin(s, a, n);
        p := LinkToSeed(init, a.server);
        LinkNewcomer(s, a, p);
        p := p + [n];
      }
    }
  }

  lemma NewByJoin(s: System, a: Action, n: string)
    requires Enabled(s, a) && n !in s.stores && n in Apply(s, a).stores && !a.Boot?
    ensures a.Join? && a.node == n && a.server in s.stores
  {
  }

  lemma {:induction false} AgreesWithSeed(acts: seq<Action>, n: string)
    requires Legal(EMPTY, acts) && SingleSeed(acts)
    requires Quiescent(Exec(EMPTY, acts)) && n in Exec(EMPTY, acts).stores
    ensures var s := Exec(EMPTY, acts);
            acts[0].node in s.stores && s.stores[n].Keys == s.stores[acts[0].node].Keys
  {
    MembershipAlways(acts);
    var p := LinkToSeed(acts, n);
    AgreementAlongChain(Exec(EMPTY, acts), p);
  }

  /** Convergence: a failure-free run from one seed that has gone quiet left every node knowing exactly
      the booted nodes, all following the smallest booted ID. */
  lemma {:induction false} OneLeader(acts: seq<Action>, n: string)
    requires Legal(EMPTY, acts) && SingleSeed(acts)
    requires Quiescent(Exec(EMPTY, acts)) && n in Exec(EMPTY, acts).stores
    ensures var s := Exec(EMPTY, acts);
            s.stores[n].Keys == s.stores.Keys && LeaderOf(s.stores[n].Keys) == LeaderOf(s.stores.Keys)
  {
    var s := Exec(EMPTY, acts);
    MembershipAlways(acts);
    AgreesWithSeed(acts, n);
    forall k | k in s.stores ensures k in s.stores[n] {
      AgreesWithSeed(acts, k);
      assert HomeOk(s, k);
    }
    forall k | k in s.stores[n] ensures k in s.stores {
      assert HomeOk(s, n) && PeerOk(s.addr, s.stores[n][k]) && HomeOk(s, k);
    }
  }

  /** Where gossip has not gone quiet, one send and its delivery inform the receiver. */
  lemma SendAndDeliver(s: System) returns (a: Action, d: Action)
    requires Membership(s) && s.awaiting == map[] && !Quiescent(s)
    ensures a.Send? && Closed(a) && Enabled(s, a)
    ensures d.Deliver? && Closed(d) && Enabled(Apply(s, a), d) && Informs(Apply(s, a), d)
  {
    a :| a.Send? && Enabled(s, a) && Enlarges(s, a);
    var r :| r in s.stores && r in s.addr && s.addr[r] == s.stores[a.node][a.target].addr
             && !(s.stores[a.node].Keys <= s.stores[r].Keys);
    d := Deliver(r, Push(s.addr[r], a.plist));
    ListingContents(s.stores[a.node], a.plist);
  }

  lemma {:induction false} ExecConcat(s: System, xs: seq<Action>, ys: seq<Action>)
    requires Legal(s, xs) && Legal(Exec(s, xs), ys)
    ensures Legal(s, xs + ys) && Exec(s, xs + ys) == Exec(Exec(s, xs), ys)
    decreases |ys|
  {
    if ys == [] {
      assert xs + ys == xs;
    } else {
      var n := |ys| - 1;
      ExecConcat(s, xs, ys[..n]);
      ConcatInit(xs, ys);
    }
  }

  lemma LegalOne(s: System, a: Action)
    requires Enabled(s, a)
    ensures Legal(s, [a]) && Exec(s, [a]) == Apply(s, a)
  {
    assert [a][..0] == [] && Legal(s, []);
  }

  lemma ClosedStep(s: System, a: Action)
    requires Membership(s) && Enabled(s, a) && Closed(a)
    ensures Membership(Apply(s, a))
    ensures |Unknown(Apply(s, a))| <= |Unknown(s)|
    ensures Informs(s, a) ==> |Unknown(Apply(s, a))| < |Unknown(s)|
  {
    MembershipStep(s, a);
    UnknownStep(s, a);
  }

  lemma TwoSteps(s: System, a: Action, d: Action)
    requires Enabled(s, a) && Enabled(Apply(s, a), d) && Closed(a) && Closed(d)
    ensures AllClosed([a] + [d])
    ensures Legal(s, [a] + [d]) && Exec(s, [a] + [d]) == Apply(Apply(s, a), d)
  {
    LegalOne(s, a);
    LegalOne(Apply(s, a), d);
    ExecConcat(s, [a], [d]);
  }

  lemma {:induction false} Unblock(s: System) returns (acts: seq<Action>)
    requires Membership(s) && s.awaiting != map[]
    ensures Legal(s, acts) && AllClosed(acts)
    ensures Membership(Exec(s, acts))
    ensures |Unknown(Exec(s, acts))| <= |Unknown(s)| && Exec(s, acts).awaiting.Keys < s.awaiting.Keys
  {
    var n :| n in s.awaiting;
    acts := [SendOk(n)];
    LegalOne(s, SendOk(n));
    ClosedStep(s, SendOk(n));
  }

  lemma {:induction false} Inform(s: System) returns (acts: seq<Action>)
    requires Membership(s) && s.awaiting == map[] && !Quiescent(s)
    ensures Legal(s, acts) && AllClosed(acts)
    ensures Membership(Exec(s, acts)) && |Unknown(Exec(s, acts))| < |Unknown(s)|
  {
    var a, d := SendAndDeliver(s);
    TwoSteps(s, a, d);
    InformedBy(s, a, d);
    acts := [a] + [d];
  }

  lemma InformedBy(s: System, a: Action, d: Action)
    requires Membership(s) && Enabled(s, a) && Enabled(Apply(s, a), d) && Closed(a) && Closed(d)
    requires Informs(Apply(s, a), d)
    ensures Membership(Apply(Apply(s, a), d)) && |Unknown(Apply(Apply(s, a), d))| < |Unknown(s)|
  {
    ClosedStep(s, a);
    ClosedStep(Apply(s, a), d);
  }

  /** From any reachable state, failure-free gossip among the booted nodes can always go quiet. */
  lemma {:induction false} CanGoQuiet(s: System) returns (acts: seq<Action>)
    requires Membership(s)
    ensures AllClosed(acts)
    ensures Legal(s, acts) && Quiescent(Exec(s, acts))
    decreases |Unknown(s)|, s.awaiting.Keys
  {
    if s.awaiting != map[] {
      var first := Unblock(s);
      var rest := CanGoQuiet(Exec(s, first));
      ExecConcat(s, first, rest);
      AllClosedConcat(first, rest);
      acts := first + rest;
    } else if Quiescent(s) {
      acts := [];
    } else {
      var first := Inform(s);
      var rest := CanGoQuiet(Exec(s, first));
      ExecConcat(s, first, rest);
      AllClosedConcat(first, rest);
      acts := first + rest;
    }
  }

  // ----- Failing sends can split the cluster for good -----

  lemma Then(s: System, acts: seq<Action>, a: Action)
    requires Legal(s, acts) && Enabled(Exec(s, acts), a)
    ensures OneBoot(acts) && !a.Boot? ==> OneBoot(acts + [a])
    ensures Legal(s, acts + [a]) && Exec(s, acts + [a]) == Apply(Exec(s, acts), a)
  {
    SnocInit(acts, a);
  }

  lemma Undone(net: multiset<Message>, m: Message, awaiting: map<string, string>, a: string, b: string)
    ensures net + multiset{m} - multiset{m} == net
    ensures awaiting[a := b] - {a} == awaiting - {a}
  {
  }

  /** `a` sends its table to `b`, the POST fails and the message is gone. */
  lemma {:induction false} FailedSend(s: System, acts: seq<Action>, a: string, b: string, plist: seq<Peer>)
    returns (more: seq<Action>)
    requires Legal(s, acts) && Enabled(Exec(s, acts), Send(a, b, plist))
    ensures Legal(s, more)
    ensures OneBoot(acts) ==> OneBoot(more)
    ensures var t := Exec(s, acts);
            Exec(s, more) == t.(stores := t.stores[a := AfterFailure(t.stores[a], b)], awaiting := t.awaiting - {a})
  {
    var t := Exec(s, acts);
    var m := Push(t.stores[a][b].addr, plist);
    Then(s, acts, Send(a, b, plist));
    more := acts + [Send(a, b, plist)];
    Then(s, more, SendFail(a));
    more := more + [SendFail(a)];
    Then(s, more, Lose(m));
    more := more + [Lose(m)];
    Undone(t.net, m, t.awaiting, a, b);
  }

  /** The state after one failed send of `a`, which knows only itself and `b`. */
  lemma {:induction false} OneFailedSend(acts: seq<Action>, a: string, b: string, t: Table)
    returns (more: seq<Action>)
    requires Legal(EMPTY, acts) && Exec(EMPTY, acts).awaiting == map[]
    requires a in Exec(EMPTY, acts).stores && Exec(EMPTY, acts).stores[a] == t
    requires a != b && t.Keys == {a, b} && Keyed(t)
    ensures Legal(EMPTY, more)
    ensures OneBoot(acts) ==> OneBoot(more)
    ensures var s := Exec(EMPTY, acts); Exec(EMPTY, more) == s.(stores := s.stores[a := AfterFailure(t, b)])
  {
    var plist := ListingExists(t);
    assert |t| == |t.Keys| == 2;
    more := FailedSend(EMPTY, acts, a, b, plist);
  }

  lemma FailedTwice(t: Table, b: string)
    requires b in t && t[b].failures == 0
    ensures AfterFailure(AfterFailure(t, b), b) == t - {b}
  {
  }

  lemma {:induction false} TwoFailedSends(acts: seq<Action>, a: string, b: string, t: Table)
    returns (more: seq<Action>)
    requires Legal(EMPTY, acts) && Exec(EMPTY, acts).awaiting == map[]
    requires a in Exec(EMPTY, acts).stores && Exec(EMPTY, acts).stores[a] == t
    requires a != b && t.Keys == {a, b} && Keyed(t) && t[b].failures == 0
    ensures Legal(EMPTY, more)
    ensures OneBoot(acts) ==> OneBoot(more)
    ensures Exec(EMPTY, more) == Exec(EMPTY, acts).(stores := Exec(EMPTY, acts).stores[a := t - {b}])
  {
    var once := OneFailedSend(acts, a, b, t);
    more := OneFailedSend(once, a, b, AfterFailure(t, b));
    FailedTwice(t, b);
    StoredTwice(Exec(EMPTY, acts).stores, a, AfterFailure(t, b), t - {b});
  }

  lemma StoredTwice(stores: map<string, Table>, a: string, t: Table, u: Table)
    ensures stores[a := t][a := u] == stores[a := u]
  {
  }

  lemma JoinSecond(a: string, b: string, x: string, y: string, listing: seq<Peer>)
    requires a != b && x != y && IsListing(Alone(a, x)[b := Peer(b, y, 0)], listing)
    ensures var s := System(map[a := Alone(a, x)], map[a := x], multiset{}, map[]);
            && Enabled(s, Join(b, y, a, listing))
            && Apply(s, Join(b, y, a, listing)) ==
               System(map[a := Alone(a, x)[b := Peer(b, y, 0)], b := Alone(b, y)], map[a := x, b := y],
                      multiset{Welcome(b, listing + [Peer(a, x, 0)])}, map[])
  {
    var s := System(map[a := Alone(a, x)], map[a := x], multiset{}, map[]);
    assert s.stores[a] == Alone(a, x) && s.addr[a] == x;
    var both := Alone(a, x)[b := Peer(b, y, 0)];
    assert s.stores[a := both][b := Alone(b, y)] == map[a := both, b := Alone(b, y)];
    assert s.addr[b := y] == map[a := x, b := y];
  }

  /** The only entry of another node that the reply carries is `a`'s. */
  lemma OnlyOther(a: string, b: string, x: string, y: string, listing: seq<Peer>)
    requires a != b && IsListing(Alone(a, x)[b := Peer(b, y, 0)], listing)
    ensures var others := Filter(listing + [Peer(a, x, 0)], Except(b));
            Peer(a, x, 0) in others && forall p :: p in others ==> p == Peer(a, x, 0)
  {
    ListingContents(Alone(a, x)[b := Peer(b, y, 0)], listing);
    FilterMeaning(listing + [Peer(a, x, 0)], Except(b));
    assert (listing + [Peer(a, x, 0)])[|listing|] == Peer(a, x, 0);
  }

  lemma WelcomedSecond(a: string, b: string, x: string, y: string, listing: seq<Peer>)
    requires a != b && IsListing(Alone(a, x)[b := Peer(b, y, 0)], listing)
    ensures Welcomed(Alone(b, y), b, listing + [Peer(a, x, 0)]) == Alone(a, x)[b := Peer(b, y, 0)]
  {
    var others := Filter(listing + [Peer(a, x, 0)], Except(b));
    OnlyOther(a, b, x, y, listing);
    OneEntryAdded(Alone(b, y), others, Peer(a, x, 0));
    BothOrders(a, Peer(a, x, 0), b, Peer(b, y, 0));
  }

  lemma BothOrders(a: string, pa: Peer, b: string, pb: Peer)
    requires a != b
    ensures map[b := pb][a := pa] == map[a := pa][b := pb]
  {
  }

  lemma OneEntryAdded(t: Table, ps: seq<Peer>, p: Peer)
    requires p in ps && forall q :: q in ps ==> q == p
    ensures AddAll(t, ps) == t[p.id := p]
  {
    AddAllContents(t, ps);
    assert Ids(ps) == {p.id};
  }

  lemma ReplyDelivered(a: string, b: string, x: string, y: string, listing: seq<Peer>)
    requires a != b && x != y && IsListing(Alone(a, x)[b := Peer(b, y, 0)], listing)
    ensures var both := Alone(a, x)[b := Peer(b, y, 0)];
            var reply := Welcome(b, listing + [Peer(a, x, 0)]);
            var s := System(map[a := both, b := Alone(b, y)], map[a := x, b := y], multiset{reply}, map[]);
            && Enabled(s, Deliver(b, reply))
            && Apply(s, Deliver(b, reply)) == System(map[a := both, b := both], map[a := x, b := y], multiset{}, map[])
  {
    var both := Alone(a, x)[b := Peer(b, y, 0)];
    var reply := Welcome(b, listing + [Peer(a, x, 0)]);
    WelcomedSecond(a, b, x, y, listing);
    assert map[a := both, b := Alone(b, y)][b := both] == map[a := both, b := both];
    assert multiset{reply} - multiset{reply} == multiset{};
  }

  /** `b` joins through `a` and receives the reply. */
  lemma JoinAnswered(a: string, b: string, x: string, y: string) returns (acts: seq<Action>)
    requires a != b && x != y
    ensures Legal(EMPTY, acts) && OneBoot(acts)
    ensures Exec(EMPTY, acts) == System(map[a := Alone(a, x)[b := Peer(b, y, 0)], b := Alone(a, x)[b := Peer(b, y, 0)]],
                                        map[a := x, b := y], multiset{}, map[])
  {
    var both := Alone(a, x)[b := Peer(b, y, 0)];
    var listing := ListingExists(both);
    var reply := Welcome(b, listing + [Peer(a, x, 0)]);
    LegalOne(EMPTY, Boot(a, x));
    JoinSecond(a, b, x, y, listing);
    Then(EMPTY, [Boot(a, x)], Join(b, y, a, listing));
    acts := [Boot(a, x)] + [Join(b, y, a, listing)];
    ReplyDelivered(a, b, x, y, listing);
    Then(EMPTY, acts, Deliver(b, reply));
    acts := acts + [Deliver(b, reply)];
  }

  /** `OneLeader` needs its hypothesis that no send fails: two failed sends each way drive a run that
      meets all its other hypotheses into a quiescent state where two nodes follow two leaders. */
  lemma FailuresCanSplit(a: string, b: string, x: string, y: string) returns (acts: seq<Action>)
    requires a != b && x != y
    ensures Legal(EMPTY, acts) && OneBoot(acts) && Quiescent(Exec(EMPTY, acts))
    ensures var s := Exec(EMPTY, acts);
            && s.stores.Keys == {a, b} && s.stores[a].Keys == {a} && s.stores[b].Keys == {b}
            && LeaderOf(s.stores[a].Keys) == a && LeaderOf(s.stores[b].Keys) == b
  {
    var joined := JoinAnswered(a, b, x, y);
    acts := BothFail(joined, a, b, x, y);
    SplitIsQuiet(Exec(EMPTY, acts), a, b);
  }

  lemma {:induction false} BothFail(joined: seq<Action>, a: string, b: string, x: string, y: string)
    returns (acts: seq<Action>)
    requires a != b && Legal(EMPTY, joined) && OneBoot(joined)
    requires Exec(EMPTY, joined)
             == System(map[a := Alone(a, x)[b := Peer(b, y, 0)], b := Alone(a, x)[b := Peer(b, y, 0)]],
                       map[a := x, b := y], multiset{}, map[])
    ensures Legal(EMPTY, acts) && OneBoot(acts) && Exec(EMPTY, acts).awaiting == map[]
    ensures var s := Exec(EMPTY, acts);
            s.stores.Keys == {a, b} && s.stores[a].Keys == {a} && s.stores[b].Keys == {b}
  {
    var both := Alone(a, x)[b := Peer(b, y, 0)];
    var half := TwoFailedSends(joined, a, b, both);
    acts := TwoFailedSends(half, b, a, both);
    assert (both - {b}).Keys == {a} && (both - {a}).Keys == {b};
  }

  lemma SplitIsQuiet(s: System, a: string, b: string)
    requires s.stores.Keys == {a, b} && s.awaiting == map[]
    requires s.stores[a].Keys == {a} && s.stores[b].Keys == {b}
    ensures Quiescent(s) && LeaderOf(s.stores[a].Keys) == a && LeaderOf(s.stores[b].Keys) == b
  {
    forall n | n in s.stores ensures |s.stores[n]| == 1 {
      assert |s.stores[n]| == |s.stores[n].Keys|;
    }
  }
}
