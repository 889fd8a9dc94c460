/** The membership table of one cluster node (pkg/peers): a map from peer IDs to peers, in which a
    peer reported unreachable twice in a row is forgotten. */
module Peers {
  import opened Common

  datatype Peer = Peer(id: string, addr: string, failures: int)

  type Table = map<string, Peer>

  function Ids(ps: seq<Peer>): set<string> {
    set p | p in ps :: p.id
  }

  /** Every key is the ID of the entry stored under it. */
  predicate Keyed(t: Table) {
    forall k :: k in t ==> t[k].id == k
  }

  /** The table after one `Add` per peer of `ps`, in order: later entries overwrite earlier ones. */
  function AddAll(t: Table, ps: seq<Peer>): Table {
    if ps == [] then t
    else
      var last := ps[|ps| - 1];
      AddAll(t, ps[..|ps| - 1])[last.id := last]
  }

  lemma AddAllSnoc(t: Table, ps: seq<Peer>, p: Peer)
    ensures AddAll(t, ps + [p]) == AddAll(t, ps)[p.id := p]
    ensures AddAll(t, ps + []) == AddAll(t, ps)
  {
    assert (ps + [p])[..|ps|] == ps;
    assert ps + [] == ps;
  }

  lemma {:induction false} AddAllContents(t: Table, ps: seq<Peer>)
    ensures AddAll(t, ps).Keys == t.Keys + Ids(ps)
    ensures forall k :: k in AddAll(t, ps) && k !in Ids(ps) ==> AddAll(t, ps)[k] == t[k]
    ensures forall k :: k in Ids(ps) ==> AddAll(t, ps)[k] in ps && AddAll(t, ps)[k].id == k
  {
    if ps != [] {
      var n := |ps| - 1;
      AddAllContents(t, ps[..n]);
      assert ps == ps[..n] + [ps[n]];
      assert Ids(ps) == Ids(ps[..n]) + {ps[n].id};
    }
  }

  /** Of several peers with one ID the last one counts. */
  lemma {:induction false} LastWins(t: Table, ps: seq<Peer>, i: nat)
    requires i < |ps| && forall j :: i < j < |ps| ==> ps[j].id != ps[i].id
    ensures ps[i].id in AddAll(t, ps) && AddAll(t, ps)[ps[i].id] == ps[i]
  {
    if i < |ps| - 1 {
      LastWins(t, ps[..|ps| - 1], i);
    }
  }

  lemma {:induction false} AddAllKeyed(t: Table, ps: seq<Peer>)
    requires Keyed(t)
    ensures Keyed(AddAll(t, ps))
  {
    if ps != [] {
      AddAllKeyed(t, ps[..|ps| - 1]);
    }
  }

  function AfterFailure(t: Table, id: string): Table {
    if id !in t then t
    else if t[id].failures + 1 >= 2 then t - {id}
    else t[id := t[id].(failures := t[id].failures + 1)]
  }

  function AfterSuccess(t: Table, id: string): Table {
    if id !in t then t else t[id := t[id].(failures := 0)]
  }

  /** `ps` lists the table: every entry exactly once, in some order. */
  predicate IsListing(t: Table, ps: seq<Peer>) {
    if ps == [] then t == map[]
    else
      var last := ps[|ps| - 1];
      last.id in t && t[last.id] == last && IsListing(t - {last.id}, ps[..|ps| - 1])
  }

  lemma {:induction false} ListingEntries(t: Table, ps: seq<Peer>)
    requires IsListing(t, ps)
    ensures forall p :: p in ps ==> p.id in t && t[p.id] == p
    ensures forall k :: k in t ==> t[k] in ps && t[k].id == k
  {
    if ps != [] {
      var init, last := ps[..|ps| - 1], ps[|ps| - 1];
      ListingEntries(t - {last.id}, init);
      assert ps == init + [last];
      forall k | k in t ensures t[k] in ps && t[k].id == k {
        assert k != last.id ==> k in t - {last.id};
      }
    }
  }

  lemma {:induction false} ListingSize(t: Table, ps: seq<Peer>)
    requires IsListing(t, ps)
    ensures |ps| == |t|
  {
    if ps != [] {
      var last := ps[|ps| - 1];
      var rest := t - {last.id};
      ListingSize(rest, ps[..|ps| - 1]);
      assert t.Keys == rest.Keys + {last.id};
      assert |t.Keys| == |rest.Keys| + 1;
    }
  }

  lemma {:induction false} ListingContents(t: Table, ps: seq<Peer>)
    requires IsListing(t, ps)
    ensures Ids(ps) == t.Keys
    ensures forall p :: p in ps ==> p.id in t && t[p.id] == p
    ensures |ps| == |t|
  {
    ListingEntries(t, ps);
    ListingSize(t, ps);
    forall k | k in t ensures k in Ids(ps) {
      assert t[k] in ps && t[k].id == k;
    }
  }

  lemma {:induction false} ListingExists(t: Table) returns (ps: seq<Peer>)
    requires Keyed(t)
    ensures IsListing(t, ps)
    decreases t.Keys
  {
    if t == map[] {
      ps := [];
    } else {
      var k :| k in t;
      var qs := ListingExists(t - {k});
      ps := qs + [t[k]];
      assert ps[..|ps| - 1] == qs;
    }
  }

  class Store {
    var peers: Table

    ghost predicate Valid()
      reads this
    {
      Keyed(peers)
    }

    constructor ()
      ensures Valid() && peers == map[]
    {
      peers := map[];
    }

    method Add(p: Peer)
      requires Valid()
      modifies this
      ensures Valid()
      ensures peers == old(peers)[p.id := p]
    {
      peers := peers[p.id := p];
    }

    method List() returns (out: seq<Peer>)
      requires Valid()
      ensures IsListing(peers, out)
    {
      out := [];
      var todo := peers.Keys;
      while todo != {}
        invariant todo <= peers.Keys
        invariant IsListing(peers - todo, out)
        decreases todo
      {
        var k :| k in todo;
        assert (peers - (todo - {k})) - {k} == peers - todo;
        assert (out + [peers[k]])[..|out|] == out;
        out := out + [peers[k]];
        todo := todo - {k};
      }
      assert peers - todo == peers;
    }

    method OnFailure(id: string)
      requires Valid()
      modifies this
      ensures Valid()
      ensures peers == AfterFailure(old(peers), id)
    {
      if id in peers {
        var p := peers[id];
        p := p.(failures := p.failures + 1);
        if p.failures >= 2 {
          peers := peers - {id};
        } else {
          peers := peers[id := p];
        }
      }
    }

    method OnSuccess(id: string)
      requires Valid()
      modifies this
      ensures Valid()
      ensures peers == AfterSuccess(old(peers), id)
    {
      if id in peers {
        var p := peers[id];
        p := p.(failures := 0);
        peers := peers[id := p];
      }
    }
  }

  // ----- How long an entry lives between two `Add`s of its ID -----

  /** The outcome of one send: `ok` means `OnSuccess(id)` was called, otherwise `OnFailure(id)`. */
  datatype Report = Report(id: string, ok: bool)

  function Replay(t: Table, rs: seq<Report>): Table {
    if rs == [] then t
    else
      var r := rs[|rs| - 1];
      var before := Replay(t, rs[..|rs| - 1]);
      if r.ok then AfterSuccess(before, r.id) else AfterFailure(before, r.id)
  }

  /** `rs[i]` reports a failure of `id` that no later report of a success has cleared. */
  predicate Uncleared(rs: seq<Report>, id: string, i: int) {
    0 <= i < |rs| && rs[i] == Report(id, false) && forall k :: i < k < |rs| ==> rs[k] != Report(id, true)
  }

  ghost predicate HasUncleared(rs: seq<Report>, id: string) {
    exists i :: Uncleared(rs, id, i)
  }

  /** Reports `i` and `j` are failures of `id` with no success of `id` between them. */
  predicate TwiceAt(rs: seq<Report>, id: string, i: int, j: int) {
    && 0 <= i < j < |rs| && rs[i] == Report(id, false) && rs[j] == Report(id, false)
    && forall k :: i < k < j ==> rs[k] != Report(id, true)
  }

  ghost predicate FailedTwice(rs: seq<Report>, id: string) {
    exists i, j :: TwiceAt(rs, id, i, j)
  }

  /** A fresh entry survives a trace exactly when the trace never reports it failed twice without a
      success between; the reports about other peers are irrelevant. */
  lemma {:induction false} SurvivesIffNeverFailedTwice(t: Table, rs: seq<Report>, id: string)
    requires id in t && t[id].failures == 0
    ensures id in Replay(t, rs) <==> !FailedTwice(rs, id)
    ensures id in Replay(t, rs) ==>
              Replay(t, rs)[id] == t[id].(failures := if HasUncleared(rs, id) then 1 else 0)
  {
    if rs != [] {
      var n := |rs| - 1;
      var init := rs[..n];
      SurvivesIffNeverFailedTwice(t, init, id);
      if FailedTwice(init, id) {
        assert forall k :: 0 <= k < n ==> init[k] == rs[k];
        var i, j :| TwiceAt(init, id, i, j);
        assert TwiceAt(rs, id, i, j);
      } else {
        LastReport(rs, id);
      }
    }
  }

  /** What the last report of a trace does to the two notions, case by case. */
  lemma LastReport(rs: seq<Report>, id: string)
    requires rs != [] && !FailedTwice(rs[..|rs| - 1], id)
    ensures rs[|rs| - 1].id != id ==> HasUncleared(rs, id) == HasUncleared(rs[..|rs| - 1], id)
    ensures rs[|rs| - 1] == Report(id, false) ==> HasUncleared(rs, id)
    ensures rs[|rs| - 1] == Report(id, true) ==> !HasUncleared(rs, id)
    ensures FailedTwice(rs, id) <==> rs[|rs| - 1] == Report(id, false) && HasUncleared(rs[..|rs| - 1], id)
  {
    var init, last := rs[..|rs| - 1], rs[|rs| - 1];
    assert rs == init + [last];
    LastReportUncleared(init, last, id);
    LastReportTwice(init, last, id);
  }

  lemma LastReportUncleared(init: seq<Report>, last: Report, id: string)
    ensures last.id != id ==> HasUncleared(init + [last], id) == HasUncleared(init, id)
    ensures last == Report(id, false) ==> HasUncleared(init + [last], id)
    ensures last == Report(id, true) ==> !HasUncleared(init + [last], id)
  {
    var rs := init + [last];
    assert rs[|init|] == last;
    forall i | 0 <= i < |init| && last != Report(id, true)
      ensures Uncleared(rs, id, i) <==> Uncleared(init, id, i)
    {
      assert forall k :: 0 <= k < |init| ==> rs[k] == init[k];
    }
    if last == Report(id, false) {
      assert Uncleared(rs, id, |init|);
    }
  }

  lemma LastReportTwice(init: seq<Report>, last: Report, id: string)
    requires !FailedTwice(init, id)
    ensures FailedTwice(init + [last], id) <==> last == Report(id, false) && HasUncleared(init, id)
  {
    var rs := init + [last];
    assert forall k :: 0 <= k < |init| ==> rs[k] == init[k];
    if last == Report(id, false) && HasUncleared(init, id) {
      var i :| Uncleared(init, id, i);
      assert TwiceAt(rs, id, i, |init|);
    }
    if FailedTwice(rs, id) {
      var i, j :| TwiceAt(rs, id, i, j);
      assert j < |init| ==> TwiceAt(init, id, i, j);
      assert Uncleared(init, id, i);
    }
  }
}
