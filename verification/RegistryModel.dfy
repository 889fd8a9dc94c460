/** The registry as a value: what each of its operations does to one network. */
module RegistryModel {
  import opened Common
  import opened Nodes
  import opened Merge

  function OtherNode(url: string): Node -> bool {
    (n: Node) => n.url != url
  }

  function OtherChecked(url: string): Checked -> bool {
    (c: Checked) => c.node.url != url
  }

  function OtherEntry(url: string): Entry -> bool {
    (d: Entry) => d.node.url != url
  }

  /** The network with a URL removed from all three lists. */
  function Without(net: Net, url: string): Net {
    Net(Filter(net.all, OtherNode(url)), Filter(net.best, OtherChecked(url)), Filter(net.discovered, OtherEntry(url)))
  }

  /** An admin deletion leaves the discovered list alone. */
  function WithoutListed(net: Net, url: string): Net {
    net.(all := Filter(net.all, OtherNode(url)), best := Filter(net.best, OtherChecked(url)))
  }

  function Removing(url: string): Net -> Net {
    (net: Net) => Without(net, url)
  }

  function Pruning(now: Time): Net -> Net {
    (net: Net) => Pruned(net, now)
  }

  /** `f` applied to every network. */
  function ApplyAll(nets: map<string, Net>, f: Net -> Net): map<string, Net> {
    map k | k in nets :: f(nets[k])
  }

  /** `f` applied to the networks `ks`, one after the other. */
  function ApplyEach(nets: map<string, Net>, ks: seq<string>, f: Net -> Net): map<string, Net> {
    if ks == [] then nets
    else
      var before, k := ApplyEach(nets, ks[..|ks| - 1], f), ks[|ks| - 1];
      if k in before then before[k := f(before[k])] else before
  }

  lemma {:induction false} ApplyEachAt(nets: map<string, Net>, ks: seq<string>, f: Net -> Net, k: string)
    requires k in nets && forall i, j :: 0 <= i < j < |ks| ==> ks[i] != ks[j]
    ensures k in ApplyEach(nets, ks, f)
    ensures ApplyEach(nets, ks, f)[k] == if k in ks then f(nets[k]) else nets[k]
  {
    if ks != [] {
      ApplyEachAt(nets, ks[..|ks| - 1], f, k);
      assert ks == ks[..|ks| - 1] + [ks[|ks| - 1]];
    }
  }

  lemma {:induction false} ApplyEachKeys(nets: map<string, Net>, ks: seq<string>, f: Net -> Net)
    ensures ApplyEach(nets, ks, f).Keys == nets.Keys
  {
    if ks != [] {
      ApplyEachKeys(nets, ks[..|ks| - 1], f);
    }
  }

  /** A loop over the networks `ks` has visited `done`, each once, and has `todo` still to visit. */
  predicate Visiting(ks: set<string>, todo: set<string>, done: seq<string>) {
    && todo <= ks
    && (forall k :: k in ks ==> (k in todo) != (k in done))
    && (forall i, j :: 0 <= i < j < |done| ==> done[i] != done[j])
  }

  lemma VisitingNext(ks: set<string>, todo: set<string>, done: seq<string>, k: string)
    requires Visiting(ks, todo, done) && k in todo
    ensures Visiting(ks, todo - {k}, done + [k])
  {
    assert k !in done;
  }

  /** Visiting every network once, in whatever order the map yields them, is applying `f` to all. */
  lemma AnyOrder(nets: map<string, Net>, ks: seq<string>, f: Net -> Net)
    requires Visiting(nets.Keys, {}, ks)
    ensures ApplyEach(nets, ks, f) == ApplyAll(nets, f)
  {
    ApplyEachKeys(nets, ks, f);
    forall k | k in nets ensures ApplyEach(nets, ks, f)[k] == f(nets[k]) {
      ApplyEachAt(nets, ks, f, k);
    }
  }

  lemma SameButOne(before: map<string, Net>, after: map<string, Net>, k: string)
    requires k in before && after.Keys == before.Keys
    requires forall j :: j in before && j != k ==> after[j] == before[j]
    ensures after == before[k := after[k]]
  {
  }

  lemma ApplyEachSnoc(nets: map<string, Net>, ks: seq<string>, f: Net -> Net, k: string)
    ensures ApplyEach(nets, ks + [k], f) ==
            var before := ApplyEach(nets, ks, f); if k in before then before[k := f(before[k])] else before
  {
    assert (ks + [k])[..|ks|] == ks;
  }

  /** The drop step of a health round: each drained URL is removed in turn. */
  function RemoveEach(nets: map<string, Net>, urls: seq<string>): map<string, Net> {
    if urls == [] then nets
    else ApplyAll(RemoveEach(nets, urls[..|urls| - 1]), Removing(urls[|urls| - 1]))
  }

  function NodeOutside(urls: set<string>): Node -> bool {
    (n: Node) => n.url !in urls
  }

  function CheckedOutside(urls: set<string>): Checked -> bool {
    (c: Checked) => c.node.url !in urls
  }

  function EntryOutside(urls: set<string>): Entry -> bool {
    (d: Entry) => d.node.url !in urls
  }

  /** `ys` are the nodes of `xs` at exactly the positions whose URL is not in `urls`, in their order. */
  ghost predicate NodesLeft(xs: seq<Node>, ys: seq<Node>, urls: set<string>) {
    exists from :: PickedOut(xs, ys, from) && forall i: nat :: i < |xs| ==> (i in from <==> xs[i].url !in urls)
  }

  ghost predicate PicksLeft(xs: seq<Checked>, ys: seq<Checked>, urls: set<string>) {
    exists from :: PickedOut(xs, ys, from) && forall i: nat :: i < |xs| ==> (i in from <==> xs[i].node.url !in urls)
  }

  ghost predicate EntriesLeft(xs: seq<Entry>, ys: seq<Entry>, urls: set<string>) {
    exists from :: PickedOut(xs, ys, from) && forall i: nat :: i < |xs| ==> (i in from <==> xs[i].node.url !in urls)
  }

  /** `after` is `before` with the entries of the URLs `urls` gone from all three lists: every other entry
      stays, once per occurrence and in its order, and nothing new appears. */
  ghost predicate Reduced(before: Net, after: Net, urls: set<string>) {
    && NodesLeft(before.all, after.all, urls) && PicksLeft(before.best, after.best, urls)
    && EntriesLeft(before.discovered, after.discovered, urls)
  }

  lemma {:induction false} FilterTwice<T(!new)>(xs: seq<T>, f: T -> bool, g: T -> bool, both: T -> bool)
    requires forall x :: both(x) <==> f(x) && g(x)
    ensures Filter(Filter(xs, f), g) == Filter(xs, both)
  {
    if xs != [] {
      var n := |xs| - 1;
      FilterTwice(xs[..n], f, g, both);
      if f(xs[n]) {
        SnocInit(Filter(xs[..n], f), xs[n]);
      }
    }
  }

  lemma {:induction false} FilterAll<T(!new)>(xs: seq<T>, keep: T -> bool)
    requires forall x :: keep(x)
    ensures Filter(xs, keep) == xs
  {
    if xs != [] {
      FilterAll(xs[..|xs| - 1], keep);
      SplitLast(xs);
    }
  }

  /** The entries of the URLs `urls` filtered out of all three lists. */
  function Outside(net: Net, urls: set<string>): Net {
    Net(Filter(net.all, NodeOutside(urls)), Filter(net.best, CheckedOutside(urls)),
        Filter(net.discovered, EntryOutside(urls)))
  }

  lemma OutsideReduces(net: Net, urls: set<string>)
    ensures Reduced(net, Outside(net, urls), urls)
  {
    var nodes := FilterPositions(net.all, NodeOutside(urls));
    var picks := FilterPositions(net.best, CheckedOutside(urls));
    var entries := FilterPositions(net.discovered, EntryOutside(urls));
  }

  lemma OutsideNone(net: Net)
    ensures Outside(net, {}) == net
  {
    FilterAll(net.all, NodeOutside({}));
    FilterAll(net.best, CheckedOutside({}));
    FilterAll(net.discovered, EntryOutside({}));
  }

  lemma OutsideOneMore(net: Net, urls: set<string>, url: string)
    ensures Without(Outside(net, urls), url) == Outside(net, urls + {url})
  {
    FilterTwice(net.all, NodeOutside(urls), OtherNode(url), NodeOutside(urls + {url}));
    FilterTwice(net.best, CheckedOutside(urls), OtherChecked(url), CheckedOutside(urls + {url}));
    FilterTwice(net.discovered, EntryOutside(urls), OtherEntry(url), EntryOutside(urls + {url}));
  }

  /** Removing one URL takes exactly its entries. */
  lemma WithoutReduces(net: Net, url: string)
    ensures Reduced(net, Without(net, url), {url})
  {
    OutsideNone(net);
    OutsideOneMore(net, {}, url);
    assert {} + {url} == {url};
    OutsideReduces(net, {url});
  }

  function SetOf(urls: seq<string>): set<string> {
    set u | u in urls
  }

  lemma {:induction false} DropOutside(nets: map<string, Net>, urls: seq<string>, name: string)
    requires name in nets
    ensures name in RemoveEach(nets, urls)
    ensures RemoveEach(nets, urls)[name] == Outside(nets[name], SetOf(urls))
  {
    if urls == [] {
      OutsideNone(nets[name]);
      assert SetOf(urls) == {};
    } else {
      var n := |urls| - 1;
      DropOutside(nets, urls[..n], name);
      OutsideOneMore(nets[name], SetOf(urls[..n]), urls[n]);
      SplitLast(urls);
      assert SetOf(urls) == SetOf(urls[..n]) + {urls[n]};
    }
  }

  /** The same networks as before, each without exactly the entries of the URLs `urls`. */
  ghost predicate EachReduced(before: map<string, Net>, after: map<string, Net>, urls: set<string>) {
    after.Keys == before.Keys && forall n :: n in before ==> Reduced(before[n], after[n], urls)
  }

  lemma RemovalReduces(nets: map<string, Net>, url: string)
    ensures EachReduced(nets, ApplyAll(nets, Removing(url)), {url})
  {
    forall n | n in nets ensures Reduced(nets[n], ApplyAll(nets, Removing(url))[n], {url}) {
      WithoutReduces(nets[n], url);
    }
  }

  lemma {:induction false} RemoveEachKeys(nets: map<string, Net>, urls: seq<string>)
    ensures RemoveEach(nets, urls).Keys == nets.Keys
  {
    if urls != [] {
      RemoveEachKeys(nets, urls[..|urls| - 1]);
    }
  }

  /** After a drop every network has lost exactly the entries of the drained URLs. */
  lemma DropReduces(nets: map<string, Net>, urls: seq<string>)
    ensures EachReduced(nets, RemoveEach(nets, urls), SetOf(urls))
  {
    RemoveEachKeys(nets, urls);
    forall n | n in nets ensures Reduced(nets[n], RemoveEach(nets, urls)[n], SetOf(urls)) {
      DropOutside(nets, urls, n);
      OutsideReduces(nets[n], SetOf(urls));
    }
  }

  /** An admin deletion takes exactly the entries of one URL from the node and the best list. */
  lemma DeletionReduces(net: Net, url: string)
    ensures NodesLeft(net.all, WithoutListed(net, url).all, {url})
    ensures PicksLeft(net.best, WithoutListed(net, url).best, {url})
    ensures WithoutListed(net, url).discovered == net.discovered
  {
    var nodes := FilterPositions(net.all, OtherNode(url));
    var picks := FilterPositions(net.best, OtherChecked(url));
  }

  /** The advert of one network. */
  datatype NetworkAdvert = NetworkAdvert(name: string, nodes: seq<Advertised>)

  /** Ten minutes, in nanoseconds. */
  const TTL: Time := 600_000_000_000

  /** `clock(i, k)` is read at the `k`-th append on behalf of the `i`-th advert of a message. */
  type Clock = (nat, nat) -> Time

  function Expiry(clock: Clock, i: nat): nat -> Time {
    (k: nat) => clock(i, k) + TTL
  }

  /** The registry after the adverts of a message, in order; unknown networks are ignored. */
  function AfterAdverts(nets: map<string, Net>, msg: seq<NetworkAdvert>, clock: Clock): map<string, Net> {
    if msg == [] then nets
    else
      var n := |msg| - 1;
      var before := AfterAdverts(nets, msg[..n], clock);
      if msg[n].name in before
      then before[msg[n].name := Advertise(before[msg[n].name], msg[n].nodes, Expiry(clock, n))]
      else before
  }

  /** The same with the simple capped scan in place of the nested passes. */
  function AfterScans(nets: map<string, Net>, msg: seq<NetworkAdvert>, clock: Clock): map<string, Net> {
    if msg == [] then nets
    else
      var n := |msg| - 1;
      var before := AfterScans(nets, msg[..n], clock);
      if msg[n].name in before
      then before[msg[n].name := AdvertiseOnce(before[msg[n].name], msg[n].nodes, Expiry(clock, n))]
      else before
  }

  /** At most one advert per network name. */
  predicate NamesOnce(msg: seq<NetworkAdvert>) {
    forall i, j :: 0 <= i < j < |msg| ==> msg[i].name != msg[j].name
  }

  /** A network that no advert names is left alone. */
  lemma {:induction false} UnnamedUntouched(nets: map<string, Net>, msg: seq<NetworkAdvert>, clock: Clock, name: string)
    requires name in nets && forall i :: 0 <= i < |msg| ==> msg[i].name != name
    ensures name in AfterAdverts(nets, msg, clock) && AfterAdverts(nets, msg, clock)[name] == nets[name]
    ensures name in AfterScans(nets, msg, clock) && AfterScans(nets, msg, clock)[name] == nets[name]
  {
    if msg != [] {
      UnnamedUntouched(nets, msg[..|msg| - 1], clock, name);
    }
  }

  /** The repeats of every advert for the network are covered. */
  predicate AllCovered(net: Net, msg: seq<NetworkAdvert>, clock: Clock, name: string, now: Time) {
    forall i :: 0 <= i < |msg| && msg[i].name == name ==> RepeatsCovered(net, msg[i].nodes, Expiry(clock, i), now)
  }

  /** The one advert for the network, if any, decides what becomes of it. */
  lemma {:induction false} AdvertOf(nets: map<string, Net>, msg: seq<NetworkAdvert>, clock: Clock, name: string)
    returns (at: Option<nat>)
    requires NamesOnce(msg) && name in nets
    ensures name in AfterAdverts(nets, msg, clock) && name in AfterScans(nets, msg, clock)
    ensures at.None? ==>
              && (forall i :: 0 <= i < |msg| ==> msg[i].name != name)
              && AfterAdverts(nets, msg, clock)[name] == AfterScans(nets, msg, clock)[name]
    ensures at.Some? ==>
              var i := at.value;
              && i < |msg| && msg[i].name == name
              && AfterAdverts(nets, msg, clock)[name] == Advertise(nets[name], msg[i].nodes, Expiry(clock, i))
              && AfterScans(nets, msg, clock)[name] == AdvertiseOnce(nets[name], msg[i].nodes, Expiry(clock, i))
  {
    if msg == [] {
      at := None;
    } else {
      var n := |msg| - 1;
      if msg[n].name == name {
        UnnamedUntouched(nets, msg[..n], clock, name);
        at := Some(n);
      } else {
        at := AdvertOf(nets, msg[..n], clock, name);
      }
    }
  }

  /** A whole message with one advert per network, under any clock: every network discovers the URLs the
      simple scans discover, and a prune gives it the same node list exactly when the repeats of its advert,
      if it got one, are covered. */
  lemma {:induction false} MessageRefinesScans(nets: map<string, Net>, msg: seq<NetworkAdvert>, clock: Clock,
                                               name: string, now: Time)
    requires NamesOnce(msg) && name in nets
    ensures name in AfterAdverts(nets, msg, clock) && name in AfterScans(nets, msg, clock)
    ensures var a, b := AfterAdverts(nets, msg, clock)[name], AfterScans(nets, msg, clock)[name];
            && EntryUrls(a.discovered) == EntryUrls(b.discovered)
            && (Pruned(a, now).all == Pruned(b, now).all <==> AllCovered(nets[name], msg, clock, name, now))
  {
    var at := AdvertOf(nets, msg, clock, name);
    if at.Some? {
      AdvertRefinesScan(nets[name], msg[at.value].nodes, Expiry(clock, at.value), now);
      assert forall i :: 0 <= i < |msg| && msg[i].name == name ==> i == at.value;
    }
  }

  /** A node's way from an advert into the node list. A message names a known network once; an unlisted URL
      of that advert, not discovered yet and with room left, is listed by a prune exactly until ten minutes
      after the message was handled: by one before the first reading plus 600 seconds, not by one from the
      last reading plus 600 seconds on. */
  lemma {:induction false} AdvertisedIsListed(nets: map<string, Net>, msg: seq<NetworkAdvert>, clock: Clock,
                                              i: nat, url: string, first: Time, last: Time, now: Time)
    requires NamesOnce(msg) && i < |msg| && msg[i].name in nets
    requires forall k: nat :: first <= clock(i, k) <= last
    requires var net := nets[msg[i].name];
             && !HasUrl(net.all, url) && url !in EntryUrls(net.discovered)
             && url in AdvertUrls(News(net.all, msg[i].nodes)[..Taken(net, msg[i].nodes)])
    ensures msg[i].name in AfterAdverts(nets, msg, clock)
    ensures var all := Pruned(AfterAdverts(nets, msg, clock)[msg[i].name], now).all;
            && (now < first + 600_000_000_000 ==> HasUrl(all, url))
            && (now >= last + 600_000_000_000 ==> !HasUrl(all, url))
            && (forall m :: 0 <= m < |all| && all[m].url == url ==> Carries(all[m], msg[i].nodes))
  {
    var net, adv, expiry := nets[msg[i].name], msg[i].nodes, Expiry(clock, i);
    var at := AdvertOf(nets, msg, clock, msg[i].name);
    assert at == Some(i);
    assert forall k: nat :: expiry(k) == clock(i, k) + 600_000_000_000;
    AdvertThenPrune(net, adv, expiry, url, first + 600_000_000_000, last + 600_000_000_000, now);
    ListedCarry(net, adv, expiry, url, now);
  }
}
