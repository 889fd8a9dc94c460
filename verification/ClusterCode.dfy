/** The code of one node inside the cluster: what the gossip ticker and handler, the announce handler and the
    start-up of a node do to its store are the steps of the cluster model. `s` is the cluster as it is before
    the call, and `n` the node whose store is at hand. */
module ClusterCode {
  import opened Common
  import opened Peers
  import opened Gossip
  import opened Cluster

  /** `store` is the store of node `n`. */
  ghost predicate Home(s: System, n: string, store: Store)
    reads store
  {
    store.Valid() && n in s.stores && s.stores[n] == store.peers
  }

  /** A tick of a node that is not blocked in a POST either sends its whole table to a known other peer, or
      nothing. */
  method Tick(store: Store, n: string, pick: nat, ghost s: System) returns (send: Option<Peer>, plist: seq<Peer>)
    requires Home(s, n, store) && n !in s.awaiting
    ensures send.Some? ==>
              var a := Send(n, send.value.id, plist);
              && Enabled(s, a) && Apply(s, a).stores == s.stores
              && Apply(s, a).awaiting == s.awaiting[n := send.value.id]
              && Apply(s, a).net == s.net + multiset{Push(send.value.addr, plist)}
  {
    send, plist := BeginTick(store, n, pick);
    ListingContents(store.peers, plist);
  }

  /** The return of the POST to `target`. */
  method PostReturned(store: Store, n: string, target: string, failed: bool, ghost s: System)
    requires Home(s, n, store) && n in s.awaiting && s.awaiting[n] == target
    modifies store
    ensures var a := if failed then SendFail(n) else SendOk(n);
            Enabled(s, a) && Home(Apply(s, a), n, store) && n !in Apply(s, a).awaiting
  {
    EndTick(store, target, failed);
  }

  /** A gossip message that reached its address. */
  method Receive(store: Store, n: string, msg: seq<Peer>, ghost s: System)
    requires Home(s, n, store) && n in s.addr && Push(s.addr[n], msg) in s.net
    modifies store
    ensures var a := Deliver(n, Push(s.addr[n], msg)); Enabled(s, a) && Home(Apply(s, a), n, store)
  {
    Handler(store, msg);
  }

  /** A signed announce of a node that is starting, at the server: the reply is the one put in flight. */
  method Announced(store: Store, server: string, addr: string, id: string, at: string, ghost s: System)
    returns (reply: seq<Peer>, ghost listing: seq<Peer>)
    requires Home(s, server, store) && server in s.addr && s.addr[server] == addr && Fresh(s, id, at)
    modifies store
    ensures var a := Join(id, at, server, listing);
            && Enabled(s, a) && Home(Apply(s, a), server, store)
            && Apply(s, a).net == s.net + multiset{Welcome(id, reply)}
  {
    var r := ServeAnnounce(store, id, at, server, addr, true);
    listing :| IsListing(store.peers, listing) && r == Some(listing + [Peer(server, addr, 0)]);
    reply := r.value;
  }

  /** A start without a reply is a boot; with the reply to its announce, the node delivers it to itself. */
  method StartUp(id: string, at: string, reply: Option<seq<Peer>>, ghost s: System) returns (store: Store)
    requires if reply.None? then Fresh(s, id, at)
             else id in s.stores && s.stores[id] == Alone(id, at) && id in s.addr && Welcome(id, reply.value) in s.net
    ensures fresh(store)
    ensures var a := if reply.None? then Boot(id, at) else Deliver(id, Welcome(id, reply.value));
            Enabled(s, a) && Home(Apply(s, a), id, store)
  {
    store := InitBootstrap(id, at, reply);
  }
}
