/** The code one node runs to exchange membership: the gossip ticker and handler
    (pkg/gossip/gossip.go), the announce handler (pkg/bootstrap/handler.go) and the join at start-up
    (cmd/app/bootstrap.go). Each method is tied to the table functions the cluster model uses. */
module Gossip {
  import opened Common
  import opened Peers

  /** `ps` without the entries that carry `id`. */
  function Except(id: string): Peer -> bool {
    (p: Peer) => p.id != id
  }

  /** The table a node owns once its own entry is in. */
  function Alone(id: string, addr: string): Table {
    map[id := Peer(id, addr, 0)]
  }

  /** The table of a freshly started node that got `welcome` back from its announce. */
  function Welcomed(t: Table, self: string, welcome: seq<Peer>): Table {
    AddAll(t, Filter(welcome, Except(self)))
  }

  lemma WelcomedSnoc(t: Table, self: string, welcome: seq<Peer>, i: nat)
    requires i < |welcome|
    ensures Welcomed(t, self, welcome[..i + 1]) ==
            if welcome[i].id == self then Welcomed(t, self, welcome[..i])
            else Welcomed(t, self, welcome[..i])[welcome[i].id := welcome[i]]
  {
    FilterSnoc(welcome, i, Except(self));
    AddAllSnoc(t, Filter(welcome[..i], Except(self)), welcome[i]);
  }

  /** A newcomer keeps its own entry as it made it, and takes over every other peer of the reply, the last
      one of an ID. */
  lemma WelcomedMeaning(id: string, addr: string, welcome: seq<Peer>)
    ensures var t := Welcomed(Alone(id, addr), id, welcome);
            && t.Keys == {id} + Ids(welcome) && t[id] == Peer(id, addr, 0)
            && forall i :: 0 <= i < |welcome| && welcome[i].id != id
                           && (forall j :: i < j < |welcome| ==> welcome[j].id != welcome[i].id) ==>
                 t[welcome[i].id] == welcome[i]
  {
    var others := Filter(welcome, Except(id));
    AddAllContents(Alone(id, addr), others);
    FilterMeaning(welcome, Except(id));
    assert forall p :: p in welcome && p.id != id ==> p in others;
    assert id !in Ids(others);
    forall i: nat | i < |welcome| && welcome[i].id != id
                    && (forall j :: i < j < |welcome| ==> welcome[j].id != welcome[i].id)
      ensures Welcomed(Alone(id, addr), id, welcome)[welcome[i].id] == welcome[i]
    {
      LastOther(id, welcome, i);
      LastWins(Alone(id, addr), others, |Filter(welcome[..i], Except(id))|);
    }
  }

  lemma LastOther(id: string, ps: seq<Peer>, i: nat)
    requires i < |ps| && ps[i].id != id && forall j :: i < j < |ps| ==> ps[j].id != ps[i].id
    ensures var others, p := Filter(ps, Except(id)), |Filter(ps[..i], Except(id))|;
            p < |others| && others[p] == ps[i] && forall j :: p < j < |others| ==> others[j].id != ps[i].id
  {
    var rest := Filter(ps[i + 1..], Except(id));
    FilterSnoc(ps, i, Except(id));
    FilterConcat(ps[..i + 1], ps[i + 1..], Except(id));
    assert ps[..i + 1] + ps[i + 1..] == ps;
    FilterMeaning(ps[i + 1..], Except(id));
    forall j | 0 <= j < |rest| ensures rest[j].id != ps[i].id {
      assert rest[j] in ps[i + 1..];
    }
  }

  method Handler(store: Store, msg: seq<Peer>)
    requires store.Valid()
    modifies store
    ensures store.Valid()
    ensures store.peers == AddAll(old(store.peers), msg)
  {
    for i := 0 to |msg|
      invariant store.Valid()
      invariant store.peers == AddAll(old(store.peers), msg[..i])
    {
      store.Add(msg[i]);
      AddAllSnoc(old(store.peers), msg[..i], msg[i]);
      assert msg[..i + 1] == msg[..i] + [msg[i]];
    }
    assert msg[..|msg|] == msg;
  }

  /** The first half of a tick: `pick` is the random index. Nothing is sent by a node that knows only
      one peer, nor when the random peer is the node itself; otherwise the whole table goes out. */
  method BeginTick(store: Store, selfID: string, pick: nat) returns (send: Option<Peer>, plist: seq<Peer>)
    requires store.Valid()
    ensures IsListing(store.peers, plist)
    ensures send.Some? ==> send.value.id != selfID && send.value in store.peers.Values
    ensures send.Some? ==> |plist| > 1 && send.value == plist[pick % |plist|]
    ensures send.None? <==> |store.peers| <= 1 || plist[pick % |plist|].id == selfID
  {
    plist := store.List();
    ListingContents(store.peers, plist);
    if |plist| <= 1 {
      return None, plist;
    }
    var target := plist[pick % |plist|];
    if target.id == selfID {
      return None, plist;
    }
    assert target in plist;
    assert store.peers[target.id] == target;
    send := Some(target);
  }

  /** The second half of a tick, once the POST returned. */
  method EndTick(store: Store, target: string, failed: bool)
    requires store.Valid()
    modifies store
    ensures store.Valid()
    ensures store.peers == if failed then AfterFailure(old(store.peers), target)
                           else AfterSuccess(old(store.peers), target)
  {
    if failed {
      store.OnFailure(target);
      return;
    }
    store.OnSuccess(target);
  }

  /** The announce handler: `signed` is the outcome of the signature check. */
  method ServeAnnounce(store: Store, id: string, internalAddr: string, myID: string, myAddr: string, signed: bool)
    returns (reply: Option<seq<Peer>>)
    requires store.Valid()
    modifies store
    ensures store.Valid()
    ensures !signed ==> reply.None? && store.peers == old(store.peers)
    ensures signed ==> store.peers == old(store.peers)[id := Peer(id, internalAddr, 0)]
    ensures signed ==> exists listing :: IsListing(store.peers, listing)
                                         && reply == Some(listing + [Peer(myID, myAddr, 0)])
  {
    if !signed {
      return None;
    }
    store.Add(Peer(id, internalAddr, 0));
    var peersList := store.List();
    reply := Some(peersList + [Peer(myID, myAddr, 0)]);
  }

  /** Start-up of a node; `reply` is what its announce returned, `None` without a bootstrap URL or on
      any announce error. */
  method InitBootstrap(nodeID: string, internalAddr: string, reply: Option<seq<Peer>>) returns (store: Store)
    ensures fresh(store) && store.Valid()
    ensures reply.None? ==> store.peers == Alone(nodeID, internalAddr)
    ensures reply.Some? ==> store.peers == Welcomed(Alone(nodeID, internalAddr), nodeID, reply.value)
  {
    store := new Store();
    store.Add(Peer(nodeID, internalAddr, 0));
    if reply.Some? {
      var list := reply.value;
      for i := 0 to |list|
        invariant store.Valid() && fresh(store)
        invariant store.peers == Welcomed(Alone(nodeID, internalAddr), nodeID, list[..i])
      {
        WelcomedSnoc(Alone(nodeID, internalAddr), nodeID, list, i);
        if list[i].id != nodeID {
          store.Add(list[i]);
        }
      }
      assert list[..|list|] == list;
    }
  }
}
