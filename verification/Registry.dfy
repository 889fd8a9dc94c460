/** The registry (pkg/registry/registry.go) and the advert handler (pkg/gossip/state.go) as the program
    runs them: per network three slices that are appended to, replaced and compacted in place. Every
    method is tied to the value-level step of the same name. */
module Registry {
  import opened Common
  import opened Nodes
  import opened Merge
  import opened RegistryModel
  import opened Slices

  class NetworkState {
    var all: array<Node>
    var nAll: nat
    var best: array<Checked>
    var nBest: nat
    var discovered: array<Entry>
    var nDiscovered: nat

    /** The three lists as values. */
    ghost var net: Net

    ghost predicate Valid()
      reads this, all, best, discovered
    {
      && nAll <= all.Length && nBest <= best.Length && nDiscovered <= discovered.Length
      && net == Net(all[..nAll], best[..nBest], discovered[..nDiscovered])
    }

    constructor (nodes: seq<Node>, picks: seq<Checked>)
      ensures Valid() && fresh(all) && fresh(best) && fresh(discovered)
      ensures net == Net(nodes, picks, [])
    {
      all := new Node[|nodes|](i requires 0 <= i < |nodes| => nodes[i]);
      best := new Checked[|picks|](i requires 0 <= i < |picks| => picks[i]);
      discovered := new Entry[0];
      nAll, nBest, nDiscovered := |nodes|, |picks|, 0;
      net := Net(nodes, picks, []);
    }

    method SetBest(picks: seq<Checked>)
      requires Valid()
      modifies `net, `best, `nBest
      ensures Valid() && fresh(best)
      ensures net == old(net).(best := picks)
    {
      best := FromSeq(picks);
      nBest := |picks|;
      net := net.(best := picks);
    }

    method AddNode(n: Node)
      requires Valid()
      modifies `net, `all, `nAll, all
      ensures Valid() && fresh({all} - {old(all)})
      ensures net == old(net).(all := old(net).all + [n])
    {
      all := Append(all, nAll, n);
      nAll := nAll + 1;
      net := net.(all := net.all + [n]);
    }

    method AppendBest(c: Checked)
      requires Valid()
      modifies `net, `best, `nBest, best
      ensures Valid() && fresh({best} - {old(best)})
      ensures net == old(net).(best := old(net).best + [c])
    {
      best := Append(best, nBest, c);
      nBest := nBest + 1;
      net := net.(best := net.best + [c]);
    }

    method AppendDiscovered(d: Entry)
      requires Valid()
      modifies `net, `discovered, `nDiscovered, discovered
      ensures Valid() && fresh({discovered} - {old(discovered)})
      ensures net == old(net).(discovered := old(net).discovered + [d])
    {
      discovered := Append(discovered, nDiscovered, d);
      nDiscovered := nDiscovered + 1;
      net := net.(discovered := net.discovered + [d]);
    }

    method RemoveFromAll(url: string)
      requires Valid()
      modifies `nAll, `net, all
      ensures Valid() && net == old(net).(all := Filter(old(net).all, OtherNode(url)))
    {
      if nAll > 0 {
        nAll := Compact(all, nAll, OtherNode(url));
      }
      net := net.(all := Filter(net.all, OtherNode(url)));
    }

    method RemoveFromBest(url: string)
      requires Valid()
      modifies `nBest, `net, best
      ensures Valid() && net == old(net).(best := Filter(old(net).best, OtherChecked(url)))
    {
      if nBest > 0 {
        nBest := Compact(best, nBest, OtherChecked(url));
      }
      net := net.(best := Filter(net.best, OtherChecked(url)));
    }

    method RemoveFromDiscovered(url: string)
      requires Valid()
      modifies `nDiscovered, `net, discovered
      ensures Valid() && net == old(net).(discovered := Filter(old(net).discovered, OtherEntry(url)))
    {
      if nDiscovered > 0 {
        nDiscovered := Compact(discovered, nDiscovered, OtherEntry(url));
      }
      net := net.(discovered := Filter(net.discovered, OtherEntry(url)));
    }

    /** The part of `RemoveNodeEverywhere` that deals with one network. */
    method Remove(url: string)
      requires Valid()
      modifies `net, `nAll, `nBest, `nDiscovered, all, best, discovered
      ensures Valid()
      ensures net == Without(old(net), url)
    {
      RemoveFromAll(url);
      RemoveFromBest(url);
      RemoveFromDiscovered(url);
    }

    method OtherBest(url: string) returns (kept: seq<Checked>)
      requires Valid()
      ensures kept == Filter(net.best, OtherChecked(url))
    {
      kept := [];
      for i := 0 to nBest
        invariant kept == Filter(net.best[..i], OtherChecked(url))
      {
        FilterSnoc(net.best, i, OtherChecked(url));
        assert best[i] == net.best[i];
        if best[i].node.url != url {
          kept := kept + [best[i]];
        }
      }
      assert net.best[..nBest] == net.best;
    }

    method OtherNodes(url: string) returns (kept: seq<Node>)
      requires Valid()
      ensures kept == Filter(net.all, OtherNode(url))
    {
      kept := [];
      for i := 0 to nAll
        invariant kept == Filter(net.all[..i], OtherNode(url))
      {
        FilterSnoc(net.all, i, OtherNode(url));
        assert all[i] == net.all[i];
        if all[i].url != url {
          kept := kept + [all[i]];
        }
      }
      assert net.all[..nAll] == net.all;
    }

    /** The filter loops of an admin deletion rebuild both lists in fresh slices. */
    method DeleteListed(url: string)
      requires Valid()
      modifies `net, `all, `nAll, `best, `nBest
      ensures Valid() && fresh(all) && fresh(best)
      ensures net == WithoutListed(old(net), url)
    {
      var newBest := OtherBest(url);
      var newAll := OtherNodes(url);
      SetBest(newBest);
      all := FromSeq(newAll);
      nAll := |newAll|;
      net := net.(all := newAll);
    }

    /** The duplicate scan of the merge loop. */
    method Lists(url: string) returns (dup: bool)
      requires Valid()
      ensures dup <==> HasUrl(net.all, url)
    {
      for i := 0 to nAll
        invariant forall k :: 0 <= k < i ==> all[k].url != url
      {
        if all[i].url == url {
          assert net.all[i].url == url;
          return true;
        }
      }
      return false;
    }

    /** The first loop of `PruneAndMerge`: outdated entries go, into a fresh list. */
    method KeepUnexpired(now: Time)
      requires Valid()
      modifies `net, `discovered, `nDiscovered
      ensures Valid() && fresh(discovered)
      ensures net == old(net).(discovered := Fresh(old(net).discovered, now))
    {
      ghost var ds := net.discovered;
      var kept: seq<Entry> := [];
      var n := nDiscovered;
      for i := 0 to n
        invariant Valid() && n == nDiscovered == |ds| && ds == discovered[..n]
        invariant kept == Fresh(ds[..i], now)
      {
        FilterSnoc(ds, i, Unexpired(now));
        var d := discovered[i];
        assert d == ds[i];
        if d.expiresAt > now {
          kept := kept + [d];
        }
      }
      assert ds[..n] == ds;
      discovered := FromSeq(kept);
      nDiscovered := |kept|;
      net := net.(discovered := kept);
    }

    /** The second loop of `PruneAndMerge`. */
    method MergeDiscovered()
      requires Valid()
      modifies `net, `all, `nAll, all
      ensures Valid() && fresh({all} - {old(all)})
      ensures net == old(net).(all := MergeInto(old(net).all, old(net).discovered))
    {
      ghost var before := net;
      var n := nDiscovered;
      for i := 0 to n
        invariant Valid() && fresh({all} - {old(all)})
        invariant net == before.(all := MergeInto(before.all, before.discovered[..i]))
      {
        ghost var ds := before.discovered;
        assert ds[..i + 1][..i] == ds[..i] && net.discovered == ds;
        var node := discovered[i].node;
        assert node == ds[i].node;
        var dup := Lists(node.url);
        if !dup {
          AddNode(node);
        }
      }
      assert before.discovered[..n] == before.discovered;
    }

    /** The `exists` map of the advert handler. */
    method ListedUrls() returns (listed: set<string>)
      requires Valid()
      ensures listed == Urls(net.all)
    {
      ghost var nodes := net.all;
      listed := {};
      for i := 0 to nAll
        invariant listed == Urls(nodes[..i])
      {
        assert nodes[..i + 1] == nodes[..i] + [nodes[i]];
        assert Urls(nodes[..i + 1]) == Urls(nodes[..i]) + {nodes[i].url};
        listed := listed + {all[i].url};
      }
      assert nodes[..nAll] == nodes;
    }

    /** One attempt of the innermost loop, on the `p`-th unlisted node `n`. */
    method AdvertAttempt(n: Advertised, adv: seq<Advertised>, expiry: nat -> Time, k: nat, ghost pass: nat,
                         ghost p: nat, ghost before: Net)
      returns (k': nat)
      requires Valid() && p < |News(before.all, adv)| && News(before.all, adv)[p] == n
      requires Appended(net, before, adv, expiry, Attempts(pass, |News(before.all, adv)|) + p, k)
      modifies `net, `discovered, `nDiscovered, discovered
      ensures Valid() && fresh({discovered} - {old(discovered)})
      ensures Appended(net, before, adv, expiry, Attempts(pass, |News(before.all, adv)|) + p + 1, k')
    {
      AppendedFurther(net, before, adv, expiry, pass, p, k);
      if nDiscovered >= MAX_DISCOVERED {
        return k;
      }
      AppendDiscovered(Entry(NodeOf(n), expiry(k)));
      return k + 1;
    }

    /** One inner pass of the advert handler: every unlisted node once more, unless the list is full.
        `pass` passes came before, and `k` entries have been appended so far. */
    method AdvertPass(adv: seq<Advertised>, listed: set<string>, expiry: nat -> Time, k: nat, ghost pass: nat,
                      ghost before: Net)
      returns (k': nat)
      requires Valid() && listed == Urls(before.all)
      requires Appended(net, before, adv, expiry, Attempts(pass, |News(before.all, adv)|), k)
      modifies `net, `discovered, `nDiscovered, discovered
      ensures Valid() && fresh({discovered} - {old(discovered)})
      ensures Appended(net, before, adv, expiry, Attempts(pass + 1, |News(before.all, adv)|), k')
    {
      k' := k;
      ghost var start := Attempts(pass, |News(before.all, adv)|);
      for j := 0 to |adv|
        invariant Valid() && fresh({discovered} - {old(discovered)})
        invariant Appended(net, before, adv, expiry, start + |News(before.all, adv[..j])|, k')
      {
        var n := adv[j];
        NewsAt(before.all, adv, j);
        HasUrlMeaning(before.all, n.url);
        if n.url in listed {
          continue;
        }
        k' := AdvertAttempt(n, adv, expiry, k', pass, |News(before.all, adv[..j])|, before);
      }
      assert adv[..|adv|] == adv;
    }

    /** One turn of the outer loop. */
    method AdvertTurn(adv: seq<Advertised>, i: nat, listed: set<string>, expiry: nat -> Time, k: nat, ghost before: Net)
      returns (k': nat)
      requires Valid() && listed == Urls(before.all) && i < |adv|
      requires Appended(net, before, adv, expiry, AttemptsUpTo(before.all, adv, i), k)
      modifies `net, `discovered, `nDiscovered, discovered
      ensures Valid() && fresh({discovered} - {old(discovered)})
      ensures Appended(net, before, adv, expiry,
                       AttemptsUpTo(before.all, adv, i + 1), k')
    {
      NewsAt(before.all, adv, i);
      HasUrlMeaning(before.all, adv[i].url);
      if adv[i].url in listed {
        return k;
      }
      k' := AdvertPass(adv, listed, expiry, k, |News(before.all, adv[..i])|, before);
    }

    /** The soft merge of one advert; the `k`-th appended entry expires at `expiry(k)`. */
    method MergeAdvert(adv: seq<Advertised>, expiry: nat -> Time)
      requires Valid()
      modifies `net, `discovered, `nDiscovered, discovered
      ensures Valid() && fresh({discovered} - {old(discovered)})
      ensures net == Advertise(old(net), adv, expiry)
    {
      ghost var before := net;
      var listed := ListedUrls();
      var k := 0;
      AppendedNone(before, adv, expiry);
      for i := 0 to |adv|
        invariant Valid() && fresh({discovered} - {old(discovered)})
        invariant Appended(net, before, adv, expiry,
                           AttemptsUpTo(before.all, adv, i), k)
      {
        k := AdvertTurn(adv, i, listed, expiry, k, before);
      }
      AppendedAll(net, before, adv, expiry, k);
    }
  }

  class Registry {
    var state: map<string, NetworkState>

    /** The network each state and backing array belongs to; no two networks share one. */
    ghost var owner: map<object, string>

    ghost predicate Owns(k: string, s: NetworkState)
      reads this, s, s.all, s.best, s.discovered
    {
      && s.Valid()
      && s in owner && owner[s] == k
      && s.all in owner && owner[s.all] == k
      && s.best in owner && owner[s.best] == k
      && s.discovered in owner && owner[s.discovered] == k
    }

    ghost predicate Valid()
      reads this, state.Values, set k | k in state :: state[k].all,
            set k | k in state :: state[k].best, set k | k in state :: state[k].discovered
    {
      this !in owner && forall k {:trigger Owns(k, state[k])} :: k in state ==> Owns(k, state[k])
    }

    ghost function Nets(): map<string, Net>
      reads this, state.Values
    {
      map k | k in state :: state[k].net
    }

    constructor ()
      ensures Valid() && state == map[] && owner == map[]
    {
      state := map[];
      owner := map[];
    }

    /** The loop body of `RemoveNodeEverywhere`. */
    method RemoveFrom(k: string, s: NetworkState, url: string)
      requires Valid() && k in state && state[k] == s
      modifies s`net, s`nAll, s`nBest, s`nDiscovered, s.all, s.best, s.discovered
      ensures Valid() && s.net == Without(old(s.net), url)
      ensures forall j :: j in state && j != k ==> state[j].net == old(state[j].net)
    {
      assert Owns(k, s);
      s.Remove(url);
      forall j | j in state && j != k ensures Owns(j, state[j]) {
        assert old(Owns(j, state[j]));
      }
    }

    method RemoveNodeEverywhere(url: string)
      requires Valid()
      modifies owner.Keys
      ensures Valid() && unchanged(this)
      ensures Nets() == ApplyAll(old(Nets()), Removing(url))
      ensures EachReduced(old(Nets()), Nets(), {url})
    {
      ghost var before := Nets();
      var todo := state.Keys;
      ghost var done: seq<string> := [];
      while todo != {}
        invariant unchanged(this) && Valid()
        invariant Visiting(state.Keys, todo, done)
        invariant Nets() == ApplyEach(before, done, Removing(url))
        decreases todo
      {
        var k :| k in todo;
        assert Owns(k, state[k]);
        ghost var nets := Nets();
        RemoveFrom(k, state[k], url);
        SameButOne(nets, Nets(), k);
        ApplyEachSnoc(before, done, Removing(url), k);
        VisitingNext(state.Keys, todo, done, k);
        todo := todo - {k};
        done := done + [k];
      }
      AnyOrder(before, done, Removing(url));
      RemovalReduces(before, url);
    }

    /** A copy of the best list, in an array of its own. */
    method Best(name: string) returns (out: array<Checked>)
      requires Valid()
      ensures fresh(out)
      ensures out[..] == if name in state then state[name].net.best else []
    {
      assert name in state ==> Owns(name, state[name]);
      if name in state && state[name].nBest > 0 {
        var s := state[name];
        out := new Checked[s.nBest](i requires 0 <= i < s.nBest <= s.best.Length reads s, s.best => s.best[i]);
      } else {
        out := new Checked[0];
      }
    }

    method SetBest(name: string, picks: seq<Checked>)
      requires Valid()
      modifies `owner, state.Values
      ensures Valid()
      ensures forall j :: j in state ==>
                state[j].net == if j == name then old(state[j].net).(best := picks) else old(state[j].net)
      ensures fresh(owner.Keys - old(owner.Keys))
    {
      if name in state {
        var s := state[name];
        assert Owns(name, s);
        s.SetBest(picks);
        owner := owner[s.best := name];
        forall j | j in state && j != name ensures Owns(j, state[j]) {
          assert old(Owns(j, state[j]));
        }
      }
    }

    method AddNodeTo(k: string, s: NetworkState, n: Node)
      requires Valid() && k in state && state[k] == s
      modifies `owner, s`net, s`all, s`nAll, s.all
      ensures Valid() && s.net == old(s.net).(all := old(s.net).all + [n])
      ensures fresh(owner.Keys - old(owner.Keys))
    {
      assert Owns(k, s);
      s.AddNode(n);
      owner := owner[s.all := k];
      forall j | j in state && j != k ensures Owns(j, state[j]) {
        assert old(Owns(j, state[j]));
        assert state[j] != s && state[j].all != s.all && state[j].all != old(s.all);
        assert state[j].Valid();
      }
    }

    method AppendBestTo(k: string, s: NetworkState, c: Checked)
      requires Valid() && k in state && state[k] == s
      modifies `owner, s`net, s`best, s`nBest, s.best
      ensures Valid() && s.net == old(s.net).(best := old(s.net).best + [c])
      ensures fresh(owner.Keys - old(owner.Keys))
    {
      assert Owns(k, s);
      s.AppendBest(c);
      owner := owner[s.best := k];
      forall j | j in state && j != k ensures Owns(j, state[j]) {
        assert old(Owns(j, state[j]));
      }
    }

    lemma Alone(k: string)
      requires Valid() && k in state
      ensures forall j :: j in state && j != k ==> state[j] != state[k]
      ensures state[k] in owner && state[k].all in owner && state[k].best in owner
    {
      assert Owns(k, state[k]);
      forall j | j in state && j != k ensures state[j] != state[k] {
        assert Owns(j, state[j]);
      }
    }

    method AddNode(name: string, n: Node)
      requires Valid()
      modifies `owner, owner.Keys
      ensures Valid() && state == old(state)
      ensures forall j :: j in state ==>
                state[j].net == if j == name then old(state[j].net).(all := old(state[j].net).all + [n])
                                else old(state[j].net)
      ensures fresh(owner.Keys - old(owner.Keys))
    {
      if name in state {
        Alone(name);
        AddNodeTo(name, state[name], n);
      }
    }

    method AppendBest(name: string, c: Checked)
      requires Valid()
      modifies `owner, owner.Keys
      ensures Valid() && state == old(state)
      ensures forall j :: j in state ==>
                state[j].net == if j == name then old(state[j].net).(best := old(state[j].net).best + [c])
                                else old(state[j].net)
      ensures fresh(owner.Keys - old(owner.Keys))
    {
      if name in state {
        Alone(name);
        AppendBestTo(name, state[name], c);
      }
    }

    method DeleteFrom(k: string, s: NetworkState, url: string)
      requires Valid() && k in state && state[k] == s
      modifies `owner, s`net, s`all, s`nAll, s`best, s`nBest
      ensures Valid() && s.net == WithoutListed(old(s.net), url)
      ensures fresh(owner.Keys - old(owner.Keys))
    {
      assert Owns(k, s);
      s.DeleteListed(url);
      owner := owner[s.best := k][s.all := k];
      forall j | j in state && j != k ensures Owns(j, state[j]) {
        assert old(Owns(j, state[j]));
        assert state[j] != s && state[j].Valid();
      }
    }

    /** The deletion of an admin request; false when there is no such network. */
    method DeleteNode(name: string, url: string) returns (found: bool)
      requires Valid()
      modifies `owner, state.Values
      ensures Valid() && (found <==> name in state)
      ensures forall j :: j in state ==>
                state[j].net == if j == name then WithoutListed(old(state[j].net), url) else old(state[j].net)
      ensures fresh(owner.Keys - old(owner.Keys))
    {
      if name !in state {
        return false;
      }
      Alone(name);
      DeleteFrom(name, state[name], url);
      return true;
    }

    static ghost function Others(owner: map<object, string>, name: string): map<object, string> {
      map o | o in owner && owner[o] != name :: owner[o]
    }

    /** The objects of one network are no longer the registry's. */
    ghost predicate Detached(s: NetworkState)
      reads this, s
    {
      s !in owner && s.all !in owner && s.best !in owner && s.discovered !in owner
    }

    method Install(name: string, s: NetworkState)
      requires Valid() && s.Valid() && Detached(s)
      modifies this
      ensures Valid() && state == old(state)[name := s]
      ensures fresh(owner.Keys - old(owner.Keys) - {s, s.all, s.best, s.discovered})
      ensures name in old(state) ==> Detached(old(state)[name])
    {
      assert name in state ==> Owns(name, state[name]);
      state := state[name := s];
      owner := Others(owner, name)[s := name][s.all := name][s.best := name][s.discovered := name];
      forall j | j in state && j != name ensures Owns(j, state[j]) {
        assert old(Owns(j, state[j]));
        assert state[j] != s && state[j].Valid();
        var r := state[j];
        assert r in owner && r.all in owner && r.best in owner && r.discovered in owner;
      }
    }

    /** Adds a network or replaces the one of that name; whoever holds a replaced one keeps it as it was. */
    method AddNetwork(name: string, nodes: seq<Node>, picks: seq<Checked>)
      requires Valid()
      modifies this
      ensures Valid() && name in state && state[name].net == Net(nodes, picks, [])
      ensures state.Keys == old(state.Keys) + {name}
      ensures forall j :: j in old(state) && j != name ==> state[j] == old(state[j])
      ensures fresh(owner.Keys - old(owner.Keys))
      ensures name in old(state) ==> Detached(old(state)[name])
    {
      var s := new NetworkState(nodes, picks);
      Install(name, s);
    }

    method KeepUnexpiredOf(k: string, s: NetworkState, now: Time)
      requires Valid() && k in state && state[k] == s
      modifies `owner, s`net, s`discovered, s`nDiscovered
      ensures Valid() && s.net == old(s.net).(discovered := Fresh(old(s.net).discovered, now))
      ensures fresh(owner.Keys - old(owner.Keys))
    {
      assert Owns(k, s);
      s.KeepUnexpired(now);
      owner := owner[s.discovered := k];
      forall j | j in state && j != k ensures Owns(j, state[j]) {
        assert old(Owns(j, state[j]));
      }
    }

    method MergeDiscoveredOf(k: string, s: NetworkState)
      requires Valid() && k in state && state[k] == s
      modifies `owner, s`net, s`all, s`nAll, s.all
      ensures Valid() && s.net == old(s.net).(all := MergeInto(old(s.net).all, old(s.net).discovered))
      ensures fresh(owner.Keys - old(owner.Keys))
    {
      assert Owns(k, s);
      s.MergeDiscovered();
      owner := owner[s.all := k];
      forall j | j in state && j != k ensures Owns(j, state[j]) {
        assert old(Owns(j, state[j]));
      }
    }

    /** The loop body of `PruneAndMerge`. */
    method PruneOne(k: string, s: NetworkState, now: Time)
      requires Valid() && k in state && state[k] == s
      modifies `owner, s`net, s`all, s`nAll, s`discovered, s`nDiscovered, s.all
      ensures Valid() && s.net == Pruned(old(s.net), now)
      ensures forall j :: j in state && j != k ==> state[j].net == old(state[j].net)
      ensures fresh(owner.Keys - old(owner.Keys))
    {
      Alone(k);
      KeepUnexpiredOf(k, s, now);
      MergeDiscoveredOf(k, s);
    }

    method PruneAndMerge(now: Time)
      requires Valid()
      modifies `owner, owner.Keys
      ensures Valid() && state == old(state)
      ensures Nets() == ApplyAll(old(Nets()), Pruning(now))
      ensures fresh(owner.Keys - old(owner.Keys))
    {
      ghost var before := Nets();
      var todo := state.Keys;
      ghost var done: seq<string> := [];
      while todo != {}
        invariant state == old(state) && fresh(owner.Keys - old(owner.Keys)) && Valid()
        invariant Visiting(state.Keys, todo, done)
        invariant Nets() == ApplyEach(before, done, Pruning(now))
        decreases todo
      {
        var k :| k in todo;
        assert Owns(k, state[k]);
        ghost var nets := Nets();
        PruneOne(k, state[k], now);
        SameButOne(nets, Nets(), k);
        ApplyEachSnoc(before, done, Pruning(now), k);
        VisitingNext(state.Keys, todo, done, k);
        todo := todo - {k};
        done := done + [k];
      }
      AnyOrder(before, done, Pruning(now));
    }

    /** The handling of one advert of a message. */
    method MergeOne(k: string, s: NetworkState, adv: seq<Advertised>, expiry: nat -> Time)
      requires Valid() && k in state && state[k] == s
      modifies `owner, s`net, s`discovered, s`nDiscovered, s.discovered
      ensures Valid() && s.net == Advertise(old(s.net), adv, expiry)
      ensures forall j :: j in state && j != k ==> state[j].net == old(state[j].net)
      ensures fresh(owner.Keys - old(owner.Keys))
    {
      assert Owns(k, s);
      s.MergeAdvert(adv, expiry);
      owner := owner[s.discovered := k];
      forall j | j in state && j != k ensures Owns(j, state[j]) {
        assert old(Owns(j, state[j]));
      }
    }

    /** The advert handler: every advert of a known network is merged into its discovered list. */
    method StateHandler(msg: seq<NetworkAdvert>, clock: Clock)
      requires Valid()
      modifies `owner, owner.Keys
      ensures Valid() && state == old(state)
      ensures Nets() == AfterAdverts(old(Nets()), msg, clock)
      ensures fresh(owner.Keys - old(owner.Keys))
    {
      ghost var before := Nets();
      for i := 0 to |msg|
        invariant state == old(state) && Valid() && fresh(owner.Keys - old(owner.Keys))
        invariant Nets() == AfterAdverts(before, msg[..i], clock)
      {
        assert msg[..i + 1][..i] == msg[..i];
        var name := msg[i].name;
        if name in state {
          assert Owns(name, state[name]);
          ghost var nets := Nets();
          MergeOne(name, state[name], msg[i].nodes, Expiry(clock, i));
          SameButOne(nets, Nets(), name);
        }
      }
      assert msg[..|msg|] == msg;
    }
  }

  /** A list handed out by `Best` stays as it was, whatever is removed afterwards: the compaction works
      in arrays the registry owns, and the list is in none of them. */
  method BestSurvivesRemoval(reg: Registry, name: string, url: string) returns (out: array<Checked>)
    requires reg.Valid() && name in reg.state
    modifies reg.owner.Keys
    ensures reg.Valid() && reg.state == old(reg.state)
    ensures out[..] == old(reg.state[name].net.best)
  {
    out := reg.Best(name);
    reg.RemoveNodeEverywhere(url);
  }

  /** The end of a health round: every drained URL is removed everywhere. */
  method DropAll(reg: Registry, urls: seq<string>)
    requires reg.Valid()
    modifies reg.owner.Keys
    ensures reg.Valid() && reg.Nets() == RemoveEach(old(reg.Nets()), urls)
    ensures EachReduced(old(reg.Nets()), reg.Nets(), SetOf(urls))
  {
    ghost var before := reg.Nets();
    for i := 0 to |urls|
      invariant reg.Valid() && unchanged(reg) && reg.Nets() == RemoveEach(before, urls[..i])
    {
      assert urls[..i + 1][..i] == urls[..i];
      reg.RemoveNodeEverywhere(urls[i]);
    }
    assert urls[..|urls|] == urls;
    DropReduces(before, urls);
  }
}
