/** One network of the registry as a value, and how gossip feeds it: adverts go to the discovered list
    (pkg/gossip/state.go), unexpired discoveries are merged into the node list
    (pkg/registry/registry.go). */
module Merge {
  import opened Common
  import opened Nodes

  type Time = int

  datatype Entry = Entry(node: Node, expiresAt: Time)

  datatype Net = Net(all: seq<Node>, best: seq<Checked>, discovered: seq<Entry>)

  const MAX_DISCOVERED := 20

  function EntryUrls(ds: seq<Entry>): set<string> {
    set d | d in ds :: d.node.url
  }

  predicate HasUrl(xs: seq<Node>, url: string) {
    exists i :: 0 <= i < |xs| && xs[i].url == url
  }

  // ----- Prune and merge -----

  function Unexpired(now: Time): Entry -> bool {
    (d: Entry) => d.expiresAt > now
  }

  function Fresh(ds: seq<Entry>, now: Time): seq<Entry> {
    Filter(ds, Unexpired(now))
  }

  /** `all` followed by the nodes of the entries whose URL is not there yet. */
  function MergeInto(all: seq<Node>, ds: seq<Entry>): seq<Node> {
    if ds == [] then all
    else
      var merged := MergeInto(all, ds[..|ds| - 1]);
      var d := ds[|ds| - 1];
      if HasUrl(merged, d.node.url) then merged else merged + [d.node]
  }

  function Pruned(net: Net, now: Time): Net {
    var kept := Fresh(net.discovered, now);
    Net(MergeInto(net.all, kept), net.best, kept)
  }

  lemma {:induction false} MergeUrls(all: seq<Node>, ds: seq<Entry>, url: string)
    ensures HasUrl(MergeInto(all, ds), url) <==> HasUrl(all, url) || url in EntryUrls(ds)
  {
    if ds != [] {
      var init, d := ds[..|ds| - 1], ds[|ds| - 1];
      MergeUrls(all, init, url);
      assert ds == init + [d];
      assert EntryUrls(ds) == EntryUrls(init) + {d.node.url};
      HasUrlSnoc(MergeInto(all, init), d.node, url);
    }
  }

  lemma HasUrlSnoc(xs: seq<Node>, n: Node, url: string)
    ensures HasUrl(xs + [n], url) <==> HasUrl(xs, url) || n.url == url
  {
    assert (xs + [n])[|xs|] == n;
    if i :| 0 <= i < |xs| && xs[i].url == url {
      assert (xs + [n])[i].url == url;
    }
  }

  lemma HasUrlMeaning(xs: seq<Node>, url: string)
    ensures HasUrl(xs, url) <==> url in Urls(xs)
  {
    if i :| 0 <= i < |xs| && xs[i].url == url {
      assert xs[i] in xs;
    }
  }

  /** Nothing already listed moves, and no URL is listed twice if none was before. */
  lemma {:induction false} MergeKeeps(all: seq<Node>, ds: seq<Entry>)
    ensures all <= MergeInto(all, ds)
    ensures UrlDistinct(all) ==> UrlDistinct(MergeInto(all, ds))
  {
    if ds != [] {
      MergeKeeps(all, ds[..|ds| - 1]);
    }
  }

  /** `d` is the first entry of its URL, at index `i`. */
  predicate FirstOfUrl(ds: seq<Entry>, i: int) {
    0 <= i < |ds| && forall j :: 0 <= j < i ==> ds[j].node.url != ds[i].node.url
  }

  /** The appended nodes are the first entries of the new URLs, in the order of the entries. */
  lemma {:induction false} MergeAppends(all: seq<Node>, ds: seq<Entry>) returns (from: seq<nat>)
    ensures |from| == |MergeInto(all, ds)| - |all|
    ensures forall k :: 0 <= k < |from| ==>
              FirstOfUrl(ds, from[k]) && MergeInto(all, ds)[|all| + k] == ds[from[k]].node
              && !HasUrl(all, ds[from[k]].node.url)
    ensures forall k, l :: 0 <= k < l < |from| ==> from[k] < from[l]
  {
    if ds == [] {
      from := [];
    } else {
      var n := |ds| - 1;
      var init, url := ds[..n], ds[n].node.url;
      from := MergeAppends(all, init);
      forall k | 0 <= k < |from| ensures FirstOfUrl(ds, from[k]) && ds[from[k]] == init[from[k]] {
        assert FirstOfUrl(init, from[k]);
      }
      MergeUrls(all, init, url);
      if !HasUrl(MergeInto(all, init), url) {
        forall j | 0 <= j < n ensures ds[j].node.url != url {
          assert init[j] == ds[j] && init[j] in init;
        }
        from := from + [n];
      }
    }
  }

  /** Entries whose URLs are all listed already add nothing. */
  lemma {:induction false} MergeAbsorbs(all: seq<Node>, ds: seq<Entry>, more: seq<Entry>)
    requires forall d :: d in more ==> HasUrl(MergeInto(all, ds), d.node.url)
    ensures MergeInto(all, ds + more) == MergeInto(all, ds)
  {
    if more == [] {
      assert ds + more == ds;
    } else {
      var n := |more| - 1;
      MergeAbsorbs(all, ds, more[..n]);
      assert (ds + more)[..|ds + more| - 1] == ds + more[..n];
    }
  }

  /** A second prune at any later time, with nothing in between, leaves the node list unchanged. */
  lemma PruneTwice(net: Net, now: Time, later: Time)
    ensures Pruned(Pruned(net, now), later).all == Pruned(net, now).all
  {
    var kept := Fresh(net.discovered, now);
    var merged := MergeInto(net.all, kept);
    var again := Fresh(kept, later);
    FilterMeaning(kept, Unexpired(later));
    forall d | d in [] + again ensures HasUrl(MergeInto(merged, []), d.node.url) {
      assert d in kept;
      MergeUrls(net.all, kept, d.node.url);
    }
    MergeAbsorbs(merged, [], again);
    assert [] + again == again;
  }

  // ----- Adverts -----

  /** An advertised node; headers and the Tor flag are not distributed. */
  datatype Advertised = Advertised(url: string, priority: int)

  function NodeOf(a: Advertised): Node {
    Node(a.url, a.priority, map[], false)
  }

  function Unlisted(all: seq<Node>): Advertised -> bool {
    (a: Advertised) => !HasUrl(all, a.url)
  }

  /** The advertised nodes that are not in the node list, repeats included. */
  function News(all: seq<Node>, adv: seq<Advertised>): seq<Advertised> {
    Filter(adv, Unlisted(all))
  }

  /** How many entries a pass may still append to a list of `have` entries. */
  function Room(have: nat): nat {
    if have >= MAX_DISCOVERED then 0 else MAX_DISCOVERED - have
  }

  function Min(a: nat, b: nat): nat {
    if a < b then a else b
  }

  /** `k` modulo `n`. */
  function Wrap(k: nat, n: nat): (r: nat)
    requires n > 0
    ensures r < n && (k < n ==> r == k)
  {
    if k < n then k else Wrap(k - n, n)
  }

  /** `count` entries that walk through `news` round and round; the `k`-th expires at `expiry(k)`. */
  function Cycle(news: seq<Advertised>, count: nat, expiry: nat -> Time): (r: seq<Entry>)
    requires count > 0 ==> news != []
    ensures |r| == count
    ensures forall k :: 0 <= k < count ==> r[k] == Entry(NodeOf(news[Wrap(k, |news|)]), expiry(k))
  {
    seq(count, k requires 0 <= k < count => Entry(NodeOf(news[Wrap(k, |news|)]), expiry(k)))
  }

  /** What the handler's nested loops append: for every unlisted node all unlisted nodes once more, until
      the list is full. */
  function AdvertAppends(all: seq<Node>, have: nat, adv: seq<Advertised>, expiry: nat -> Time): seq<Entry> {
    var news := News(all, adv);
    if news == [] then [] else Cycle(news, Min(Room(have), |news| * |news|), expiry)
  }

  function Advertise(net: Net, adv: seq<Advertised>, expiry: nat -> Time): Net {
    net.(discovered := net.discovered + AdvertAppends(net.all, |net.discovered|, adv, expiry))
  }

  /** `net` is `before` after `steps` attempts of the nested loops to append, `k` of which found room. */
  ghost predicate Appended(net: Net, before: Net, adv: seq<Advertised>, expiry: nat -> Time, steps: nat, k: nat) {
    var news := News(before.all, adv);
    && k == Min(Room(|before.discovered|), steps)
    && (k > 0 ==> news != [])
    && net == before.(discovered := before.discovered + Cycle(news, k, expiry))
  }

  /** `passes` passes of `n` attempts each: `passes * n`, kept linear for the loops. */
  function Attempts(passes: nat, n: nat): nat {
    if passes == 0 then 0 else Attempts(passes - 1, n) + n
  }

  lemma {:induction false} AttemptsProduct(passes: nat, n: nat)
    ensures Attempts(passes, n) == passes * n
  {
    if passes > 0 {
      AttemptsProduct(passes - 1, n);
      assert passes * n == (passes - 1) * n + n;
    }
  }

  /** The next unlisted node of a pass is the next element of the news. */
  lemma NewsAt(all: seq<Node>, adv: seq<Advertised>, j: nat)
    requires j < |adv|
    ensures |News(all, adv[..j + 1])| == |News(all, adv[..j])| + if HasUrl(all, adv[j].url) then 0 else 1
    ensures !HasUrl(all, adv[j].url) ==>
              |News(all, adv[..j])| < |News(all, adv)| && News(all, adv)[|News(all, adv[..j])|] == adv[j]
  {
    FilterSnoc(adv, j, Unlisted(all));
    if !HasUrl(all, adv[j].url) {
      var p := FilterPosition(adv, Unlisted(all), j);
    }
  }

  lemma {:induction false} AttemptsWrap(passes: nat, n: nat, j: nat)
    requires j < n
    ensures Wrap(Attempts(passes, n) + j, n) == j
  {
    if passes > 0 {
      AttemptsWrap(passes - 1, n, j);
    }
  }

  /** One more attempt appends the next node of the cycle, or finds the list full. */
  lemma AppendedFurther(net: Net, before: Net, adv: seq<Advertised>, expiry: nat -> Time, pass: nat, p: nat, k: nat)
    requires p < |News(before.all, adv)|
    requires Appended(net, before, adv, expiry, Attempts(pass, |News(before.all, adv)|) + p, k)
    ensures var steps := Attempts(pass, |News(before.all, adv)|) + p;
            var n := News(before.all, adv)[p];
            if |net.discovered| >= MAX_DISCOVERED then Appended(net, before, adv, expiry, steps + 1, k)
            else Appended(net.(discovered := net.discovered + [Entry(NodeOf(n), expiry(k))]), before, adv, expiry,
                          steps + 1, k + 1)
  {
    var news := News(before.all, adv);
    AttemptsWrap(pass, |news|, p);
    if |net.discovered| < MAX_DISCOVERED {
      assert Cycle(news, k + 1, expiry) == Cycle(news, k, expiry) + [Entry(NodeOf(news[p]), expiry(k))];
    }
  }

  /** The attempts of the nested loops before turn `i` of the outer loop. */
  function AttemptsUpTo(all: seq<Node>, adv: seq<Advertised>, i: nat): nat
    requires i <= |adv|
  {
    Attempts(|News(all, adv[..i])|, |News(all, adv)|)
  }

  lemma AppendedNone(before: Net, adv: seq<Advertised>, expiry: nat -> Time)
    ensures Appended(before, before, adv, expiry, AttemptsUpTo(before.all, adv, 0), 0)
  {
    assert before.discovered + Cycle(News(before.all, adv), 0, expiry) == before.discovered;
  }

  lemma AppendedAll(net: Net, before: Net, adv: seq<Advertised>, expiry: nat -> Time, k: nat)
    requires Appended(net, before, adv, expiry, AttemptsUpTo(before.all, adv, |adv|), k)
    ensures net == Advertise(before, adv, expiry)
  {
    assert adv[..|adv|] == adv;
    AttemptsProduct(|News(before.all, adv)|, |News(before.all, adv)|);
    if News(before.all, adv) == [] {
      assert before.discovered + Cycle([], 0, expiry) == before.discovered;
    }
  }

  /** The simple form: one capped scan over the unlisted nodes. */
  function AdvertiseOnce(net: Net, adv: seq<Advertised>, expiry: nat -> Time): Net {
    var news := News(net.all, adv);
    net.(discovered := net.discovered +
                       if news == [] then [] else Cycle(news, Min(Room(|net.discovered|), |news|), expiry))
  }

  lemma SquareAtLeast(n: nat)
    ensures n <= n * n
  {
    if n > 0 {
      assert n * n == n + n * (n - 1);
    }
  }

  function AdvertUrls(adv: seq<Advertised>): set<string> {
    set a | a in adv :: a.url
  }

  lemma EntryUrlsConcat(a: seq<Entry>, b: seq<Entry>)
    ensures EntryUrls(a + b) == EntryUrls(a) + EntryUrls(b)
  {
    assert forall d :: d in a + b <==> d in a || d in b;
  }

  /** However often the cycle goes round, it names the URLs of its first round. */
  lemma CycleUrls(news: seq<Advertised>, count: nat, expiry: nat -> Time)
    requires count > 0 ==> news != []
    ensures EntryUrls(Cycle(news, count, expiry)) == AdvertUrls(news[..Min(count, |news|)])
  {
    var cycle, first := Cycle(news, count, expiry), news[..Min(count, |news|)];
    forall d | d in cycle ensures d.node.url in AdvertUrls(first) {
      var k :| 0 <= k < count && cycle[k] == d;
      assert first[Wrap(k, |news|)] == news[Wrap(k, |news|)] by {
        assert k < |news| ==> Wrap(k, |news|) == k;
      }
    }
    forall a | a in first ensures a.url in EntryUrls(cycle) {
      var k :| 0 <= k < |first| && first[k] == a;
      assert cycle[k].node.url == a.url;
    }
  }

  /** How many of the advertised unlisted nodes find room. */
  function Taken(net: Net, adv: seq<Advertised>): (n: nat)
    ensures n <= |News(net.all, adv)|
  {
    Min(Room(|net.discovered|), |News(net.all, adv)|)
  }

  /** What an advert makes known, for any clock and any room: the unlisted nodes it names first, as many as
      there is room for; no more and no fewer than the single scan does. */
  lemma {:induction false} AdvertisedUrls(net: Net, adv: seq<Advertised>, expiry: nat -> Time)
    ensures var urls := EntryUrls(net.discovered) + AdvertUrls(News(net.all, adv)[..Taken(net, adv)]);
            && EntryUrls(Advertise(net, adv, expiry).discovered) == urls
            && EntryUrls(AdvertiseOnce(net, adv, expiry).discovered) == urls
  {
    var news, room := News(net.all, adv), Room(|net.discovered|);
    SquareAtLeast(|news|);
    EntryUrlsConcat(net.discovered, AdvertAppends(net.all, |net.discovered|, adv, expiry));
    if news != [] {
      EntryUrlsConcat(net.discovered, Cycle(news, Min(room, |news|), expiry));
      CycleUrls(news, Min(room, |news| * |news|), expiry);
      CycleUrls(news, Min(room, |news|), expiry);
    }
  }

  /** The entries the nested passes append beyond those of the single scan. */
  function Repeats(net: Net, adv: seq<Advertised>, expiry: nat -> Time): seq<Entry> {
    var news, room := News(net.all, adv), Room(|net.discovered|);
    SquareAtLeast(|news|);
    if news == [] || room <= |news| then [] else Cycle(news, Min(room, |news| * |news|), expiry)[|news|..]
  }

  lemma CyclePrefix(news: seq<Advertised>, count: nat, expiry: nat -> Time)
    requires news != [] && |news| <= count
    ensures Cycle(news, count, expiry)[..|news|] == Cycle(news, |news|, expiry)
  {
  }

  lemma NestedIsOnceAndRepeats(net: Net, adv: seq<Advertised>, expiry: nat -> Time)
    ensures Advertise(net, adv, expiry).discovered
            == AdvertiseOnce(net, adv, expiry).discovered + Repeats(net, adv, expiry)
  {
    var news, room := News(net.all, adv), Room(|net.discovered|);
    SquareAtLeast(|news|);
    if news != [] && room > |news| {
      var nested := Cycle(news, Min(room, |news| * |news|), expiry);
      CyclePrefix(news, |nested|, expiry);
      assert nested == nested[..|news|] + nested[|news|..];
      ConcatAssoc(net.discovered, nested[..|news|], nested[|news|..]);
    }
  }

  /** Repeat `i` is of an unlisted node, which the single scan appends too. */
  lemma RepeatAt(net: Net, adv: seq<Advertised>, expiry: nat -> Time, i: nat)
    requires i < |Repeats(net, adv, expiry)|
    ensures var d, once := Repeats(net, adv, expiry)[i], AdvertiseOnce(net, adv, expiry).discovered;
            var j := Wrap(|News(net.all, adv)| + i, |News(net.all, adv)|);
            && |net.discovered| + j < |once| && !HasUrl(net.all, d.node.url)
            && once[|net.discovered| + j] == Entry(d.node, expiry(j))
            && |News(net.all, adv)| + i < MAX_DISCOVERED && d.expiresAt == expiry(|News(net.all, adv)| + i)
  {
    var news, room := News(net.all, adv), Room(|net.discovered|);
    SquareAtLeast(|news|);
    var nested := Cycle(news, Min(room, |news| * |news|), expiry);
    assert Repeats(net, adv, expiry)[i] == nested[|news| + i];
    FilterMeaning(adv, Unlisted(net.all));
    assert news[Wrap(|news| + i, |news|)] in news;
  }

  /** The nested passes append what the single scan appends, and then repeats: each of an unlisted node that
      the single scan appends too, at most with another expiry. */
  lemma NestedExtendsSimple(net: Net, adv: seq<Advertised>, expiry: nat -> Time)
    ensures Advertise(net, adv, expiry).discovered
            == AdvertiseOnce(net, adv, expiry).discovered + Repeats(net, adv, expiry)
    ensures forall d :: d in Repeats(net, adv, expiry) ==>
              !HasUrl(net.all, d.node.url)
              && exists e :: e in AdvertiseOnce(net, adv, expiry).discovered && e.node == d.node
  {
    NestedIsOnceAndRepeats(net, adv, expiry);
    var once, repeats := AdvertiseOnce(net, adv, expiry).discovered, Repeats(net, adv, expiry);
    forall d | d in repeats
      ensures !HasUrl(net.all, d.node.url) && exists e :: e in once && e.node == d.node
    {
      var i :| 0 <= i < |repeats| && repeats[i] == d;
      RepeatAt(net, adv, expiry, i);
      assert once[|net.discovered| + Wrap(|News(net.all, adv)| + i, |News(net.all, adv)|)] in once;
    }
  }

  /** Every repeat that is still unexpired at `now` has an unexpired entry of its URL in the single scan. */
  predicate RepeatsCovered(net: Net, adv: seq<Advertised>, expiry: nat -> Time, now: Time) {
    forall d :: d in Repeats(net, adv, expiry) && d.expiresAt > now ==>
      d.node.url in EntryUrls(Fresh(AdvertiseOnce(net, adv, expiry).discovered, now))
  }

  /** For any clock the nested passes and the single scan discover the same URLs, and a prune at `now` gives
      the same node list exactly when no unexpired repeat is the only unexpired entry of its URL. */
  lemma {:induction false} AdvertRefinesScan(net: Net, adv: seq<Advertised>, expiry: nat -> Time, now: Time)
    ensures EntryUrls(Advertise(net, adv, expiry).discovered)
            == EntryUrls(AdvertiseOnce(net, adv, expiry).discovered)
    ensures Pruned(Advertise(net, adv, expiry), now).all == Pruned(AdvertiseOnce(net, adv, expiry), now).all
            <==> RepeatsCovered(net, adv, expiry, now)
  {
    AdvertisedUrls(net, adv, expiry);
    NestedExtendsSimple(net, adv, expiry);
    var once := Fresh(AdvertiseOnce(net, adv, expiry).discovered, now);
    var late := Fresh(Repeats(net, adv, expiry), now);
    FilterConcat(AdvertiseOnce(net, adv, expiry).discovered, Repeats(net, adv, expiry), Unexpired(now));
    FilterMeaning(Repeats(net, adv, expiry), Unexpired(now));
    if RepeatsCovered(net, adv, expiry, now) {
      forall d | d in late ensures HasUrl(MergeInto(net.all, once), d.node.url) {
        MergeUrls(net.all, once, d.node.url);
      }
      MergeAbsorbs(net.all, once, late);
    } else {
      var d :| d in Repeats(net, adv, expiry) && d.expiresAt > now && d.node.url !in EntryUrls(once);
      assert d in once + late;
      MergeUrls(net.all, once + late, d.node.url);
      MergeUrls(net.all, once, d.node.url);
    }
  }

  /** The clock does not run backwards while a message is handled. */
  ghost predicate Advancing(expiry: nat -> Time) {
    forall k: nat, l: nat :: k <= l ==> expiry(k) <= expiry(l)
  }

  /** So under such a clock the node lists agree at every prune outside the interval in which the entries of
      this advert expire; with a single reading per message that is at every prune. */
  lemma {:induction false} AgreeOutsideExpiry(net: Net, adv: seq<Advertised>, expiry: nat -> Time, now: Time)
    requires Advancing(expiry)
    requires now < expiry(0) || forall k: nat :: k < MAX_DISCOVERED ==> expiry(k) <= now
    ensures RepeatsCovered(net, adv, expiry, now)
  {
    var once, repeats := AdvertiseOnce(net, adv, expiry).discovered, Repeats(net, adv, expiry);
    FilterMeaning(once, Unexpired(now));
    forall d | d in repeats && d.expiresAt > now ensures d.node.url in EntryUrls(Fresh(once, now)) {
      var i :| 0 <= i < |repeats| && repeats[i] == d;
      RepeatAt(net, adv, expiry, i);
      var e := once[|net.discovered| + Wrap(|News(net.all, adv)| + i, |News(net.all, adv)|)];
      assert e.node == d.node && e.expiresAt >= expiry(0);
      assert e in once && e in Fresh(once, now);
    }
  }

  /** One more advert for a network, when `a` and `b` have discovered the same URLs, `a` with no fewer
      entries: the nested passes on `a` and the single scan on `b` again discover the same URLs exactly when
      every unlisted node that finds room in `b` only is already discovered or named among those before it. */
  lemma {:induction false} FurtherAdvertIff(a: Net, b: Net, adv: seq<Advertised>, ea: nat -> Time, eb: nat -> Time)
    requires a.all == b.all && EntryUrls(a.discovered) == EntryUrls(b.discovered)
    requires |b.discovered| <= |a.discovered|
    ensures EntryUrls(Advertise(a, adv, ea).discovered) == EntryUrls(AdvertiseOnce(b, adv, eb).discovered) <==>
            var news := News(b.all, adv);
            forall k :: Taken(a, adv) <= k < Taken(b, adv) ==>
              news[k].url in EntryUrls(b.discovered) + AdvertUrls(news[..Taken(a, adv)])
  {
    var news, m, n := News(b.all, adv), Taken(a, adv), Taken(b, adv);
    AdvertisedUrls(a, adv, ea);
    AdvertisedUrls(b, adv, eb);
    assert m <= n;
    forall url ensures url in AdvertUrls(news[..n]) <==>
                       url in AdvertUrls(news[..m]) || exists k :: m <= k < n && news[k].url == url
    {
      PrefixUrls(news, m, n, url);
    }
    if forall k :: m <= k < n ==> news[k].url in EntryUrls(b.discovered) + AdvertUrls(news[..m]) {
      assert EntryUrls(b.discovered) + AdvertUrls(news[..n]) == EntryUrls(a.discovered) + AdvertUrls(news[..m]);
    } else {
      var k :| m <= k < n && news[k].url !in EntryUrls(b.discovered) + AdvertUrls(news[..m]);
      assert news[k].url in AdvertUrls(news[..n]);
    }
  }

  lemma PrefixUrls(news: seq<Advertised>, m: nat, n: nat, url: string)
    requires m <= n <= |news|
    ensures url in AdvertUrls(news[..n]) <==>
            url in AdvertUrls(news[..m]) || exists k :: m <= k < n && news[k].url == url
  {
    if url in AdvertUrls(news[..n]) {
      var k :| 0 <= k < n && news[..n][k].url == url;
      assert k < m ==> news[..m][k] == news[k];
    }
    if url in AdvertUrls(news[..m]) {
      var k :| 0 <= k < m && news[..m][k].url == url;
      assert news[..n][k] == news[k];
    }
    if k :| m <= k < n && news[k].url == url {
      assert news[..n][k] == news[k];
    }
  }

  /** A message that names a network twice: the second advert discovers the same URLs exactly when every
      unlisted node the repeats of the first one shut out is discovered or named before it anyway. */
  lemma RepeatedNameIff(net: Net, adv: seq<Advertised>, more: seq<Advertised>, expiry: nat -> Time,
                        later: nat -> Time)
    ensures var a, b := Advertise(net, adv, expiry), AdvertiseOnce(net, adv, expiry);
            EntryUrls(Advertise(a, more, later).discovered) == EntryUrls(AdvertiseOnce(b, more, later).discovered) <==>
            var news := News(net.all, more);
            forall k :: Taken(a, more) <= k < Taken(b, more) ==>
              news[k].url in EntryUrls(b.discovered) + AdvertUrls(news[..Taken(a, more)])
  {
    AdvertisedUrls(net, adv, expiry);
    NestedExtendsSimple(net, adv, expiry);
    FurtherAdvertIff(Advertise(net, adv, expiry), AdvertiseOnce(net, adv, expiry), more, later, later);
  }

  lemma SquareFillsUp(n: nat)
    requires n >= 5
    ensures n * n >= MAX_DISCOVERED
  {
    assert n * n >= 5 * n;
  }

  /** An instance: the repeats use up the room and shut out a node the simple scans discover. */
  lemma RepeatedNameDiffers(net: Net, adv: seq<Advertised>, x: Advertised, expiry: nat -> Time)
    requires net.discovered == [] && 5 <= |News(net.all, adv)| < MAX_DISCOVERED
    requires !HasUrl(net.all, x.url) && forall a :: a in adv ==> a.url != x.url
    ensures x.url !in EntryUrls(Advertise(Advertise(net, adv, expiry), [x], expiry).discovered)
    ensures x.url in EntryUrls(AdvertiseOnce(AdvertiseOnce(net, adv, expiry), [x], expiry).discovered)
  {
    var news, a, b := News(net.all, adv), Advertise(net, adv, expiry), AdvertiseOnce(net, adv, expiry);
    SquareFillsUp(|news|);
    assert |a.discovered| == MAX_DISCOVERED && |b.discovered| == |news|;
    FilterMeaning(adv, Unlisted(net.all));
    assert News(net.all, [x]) == [x] by { assert [x][..0] == []; }
    AdvertisedUrls(net, adv, expiry);
    AdvertisedUrls(a, [x], expiry);
    AdvertisedUrls(b, [x], expiry);
    assert [x][..1] == [x] && x in [x];
  }

  lemma {:induction false} AllExpired(ds: seq<Entry>, now: Time)
    requires forall d :: d in ds ==> d.expiresAt <= now
    ensures Fresh(ds, now) == []
  {
    if ds != [] {
      AllExpired(ds[..|ds| - 1], now);
    }
  }

  /** Repeats can be uncovered: when the reading advances with every append they outlive the first round, and
      a prune in between lists nodes the simple scan has lost. */
  lemma {:induction false} AdvancingClockDiffers(net: Net, adv: seq<Advertised>, expiry: nat -> Time, now: Time)
    requires net.discovered == [] && 2 <= |News(net.all, adv)| <= 4
    requires forall k: nat, l: nat :: k < l ==> expiry(k) < expiry(l)
    requires now == expiry(|News(net.all, adv)| - 1)
    ensures !RepeatsCovered(net, adv, expiry, now)
    ensures Pruned(AdvertiseOnce(net, adv, expiry), now).all == net.all
  {
    var n := |News(net.all, adv)|;
    assert n < n * n <= 16;
    var once := AdvertiseOnce(net, adv, expiry).discovered;
    forall d | d in once ensures d.expiresAt <= now {
      var k: nat :| k < n && once[k] == d;
      assert k < n - 1 ==> expiry(k) < expiry(n - 1);
    }
    AllExpired(once, now);
    var d := Repeats(net, adv, expiry)[0];
    assert d.expiresAt == expiry(n) && d in Repeats(net, adv, expiry);
  }

  // ----- From an advert to the node list -----

  /** `d` is an entry for the advertised node `a`: its URL and priority, no headers and no Tor. */
  predicate IsFor(d: Entry, a: Advertised) {
    d.node == Node(a.url, a.priority, map[], false)
  }

  /** Every entry an advert appends is for one of its unlisted nodes, and expires at one of its readings. */
  lemma {:induction false} AppendedEntry(net: Net, adv: seq<Advertised>, expiry: nat -> Time, i: nat)
    returns (j: nat, k: nat)
    requires |net.discovered| <= i < |Advertise(net, adv, expiry).discovered|
    ensures j < |adv| && !HasUrl(net.all, adv[j].url)
    ensures IsFor(Advertise(net, adv, expiry).discovered[i], adv[j])
    ensures Advertise(net, adv, expiry).discovered[i].expiresAt == expiry(k)
  {
    k := i - |net.discovered|;
    var news := News(net.all, adv);
    FilterMeaning(adv, Unlisted(net.all));
    assert news[Wrap(k, |news|)] in news;
    j :| 0 <= j < |adv| && adv[j] == news[Wrap(k, |news|)];
  }

  /** The lengths: every unlisted node once more for each of them, but never past 20 entries. */
  lemma AdvertSize(net: Net, adv: seq<Advertised>, expiry: nat -> Time)
    ensures var n, have := |News(net.all, adv)|, |net.discovered|;
            |Advertise(net, adv, expiry).discovered| ==
            if have >= 20 then have else if have + n * n >= 20 then 20 else have + n * n
  {
  }

  /** An unlisted node finds room when fewer than 20 entries and advertised nodes are before it. */
  lemma FindsRoom(net: Net, adv: seq<Advertised>, k: nat)
    requires k < |adv| && !HasUrl(net.all, adv[k].url) && |net.discovered| + k < 20
    ensures adv[k].url in AdvertUrls(News(net.all, adv)[..Taken(net, adv)])
  {
    NewsAt(net.all, adv, k);
    var p := |News(net.all, adv[..k])|;
    assert p <= k;
    assert News(net.all, adv)[..Taken(net, adv)][p] == adv[k];
  }

  lemma EntryUrlAt(ds: seq<Entry>, i: nat)
    requires i < |ds|
    ensures ds[i].node.url in EntryUrls(ds)
  {
  }

  lemma HasUrlAt(xs: seq<Node>, i: nat)
    requires i < |xs|
    ensures HasUrl(xs, xs[i].url)
  {
  }

  /** An unlisted URL that an advert makes known, its entries expiring between `lo` and `hi`, is listed by a
      prune before `lo`, and is not by a prune from `hi` on. */
  lemma {:induction false} AdvertThenPrune(net: Net, adv: seq<Advertised>, expiry: nat -> Time, url: string,
                                           lo: Time, hi: Time, now: Time)
    requires forall k: nat :: lo <= expiry(k) <= hi
    requires !HasUrl(net.all, url) && url !in EntryUrls(net.discovered)
    requires url in AdvertUrls(News(net.all, adv)[..Taken(net, adv)])
    ensures now < lo ==> HasUrl(Pruned(Advertise(net, adv, expiry), now).all, url)
    ensures now >= hi ==> !HasUrl(Pruned(Advertise(net, adv, expiry), now).all, url)
  {
    var after := Advertise(net, adv, expiry).discovered;
    AdvertisedUrls(net, adv, expiry);
    FilterMeaning(after, Unexpired(now));
    MergeUrls(net.all, Fresh(after, now), url);
    if now < lo {
      var d :| d in after && d.node.url == url;
      var i: nat :| i < |after| && after[i] == d;
      if i < |net.discovered| {
        EntryUrlAt(net.discovered, i);
      }
      var j, k := AppendedEntry(net, adv, expiry, i);
      assert d in Fresh(after, now);
    } else if now >= hi {
      forall d | d in Fresh(after, now) ensures d.node.url != url {
        var i: nat :| i < |after| && after[i] == d;
        if i < |net.discovered| {
          EntryUrlAt(net.discovered, i);
        } else {
          var j, k := AppendedEntry(net, adv, expiry, i);
        }
      }
    }
  }

  /** And what is listed for it is an advertised node of that URL. */
  lemma {:induction false} ListedAsAdvertised(net: Net, adv: seq<Advertised>, expiry: nat -> Time, url: string,
                                              now: Time, m: nat)
    returns (j: nat)
    requires !HasUrl(net.all, url) && url !in EntryUrls(net.discovered)
    requires m < |Pruned(Advertise(net, adv, expiry), now).all|
    requires Pruned(Advertise(net, adv, expiry), now).all[m].url == url
    ensures j < |adv| && adv[j].url == url
    ensures Pruned(Advertise(net, adv, expiry), now).all[m] == Node(url, adv[j].priority, map[], false)
  {
    var after := Advertise(net, adv, expiry).discovered;
    var kept := Fresh(after, now);
    MergeKeeps(net.all, kept);
    var from := MergeAppends(net.all, kept);
    if m < |net.all| {
      HasUrlAt(net.all, m);
    }
    var d := kept[from[m - |net.all|]];
    FilterMeaning(after, Unexpired(now));
    assert d in kept;
    var i: nat :| i < |after| && after[i] == d;
    if i < |net.discovered| {
      EntryUrlAt(net.discovered, i);
    }
    var k;
    j, k := AppendedEntry(net, adv, expiry, i);
  }

  /** The node is as advertised: URL and priority of one advertised node, no headers and no Tor flag. */
  predicate Carries(n: Node, adv: seq<Advertised>) {
    n.headers == map[] && !n.tor && exists j :: 0 <= j < |adv| && adv[j] == Advertised(n.url, n.priority)
  }

  lemma {:induction false} ListedCarry(net: Net, adv: seq<Advertised>, expiry: nat -> Time, url: string, now: Time)
    requires !HasUrl(net.all, url) && url !in EntryUrls(net.discovered)
    ensures var all := Pruned(Advertise(net, adv, expiry), now).all;
            forall m :: 0 <= m < |all| && all[m].url == url ==> Carries(all[m], adv)
  {
    var all := Pruned(Advertise(net, adv, expiry), now).all;
    forall m | 0 <= m < |all| && all[m].url == url ensures Carries(all[m], adv) {
      var j := ListedAsAdvertised(net, adv, expiry, url, now, m);
      assert adv[j] == Advertised(url, all[m].priority);
    }
  }

  /** A prune at `now` keeps exactly the discovered entries that expire later, in their order, lists exactly
      their URLs in addition, and leaves the best list alone. */
  lemma PruneExactly(net: Net, now: Time) returns (from: seq<nat>)
    ensures PickedOut(net.discovered, Pruned(net, now).discovered, from)
    ensures forall i: nat :: i < |net.discovered| ==> (i in from <==> net.discovered[i].expiresAt > now)
    ensures forall url :: HasUrl(Pruned(net, now).all, url) <==>
              HasUrl(net.all, url) || exists d :: d in net.discovered && d.node.url == url && d.expiresAt > now
    ensures Pruned(net, now).best == net.best
  {
    from := FilterPositions(net.discovered, Unexpired(now));
    forall url ensures HasUrl(Pruned(net, now).all, url) <==>
                       HasUrl(net.all, url) || exists d :: d in net.discovered && d.node.url == url && d.expiresAt > now
    {
      MergeUrls(net.all, Fresh(net.discovered, now), url);
      FilterMeaning(net.discovered, Unexpired(now));
      if d :| d in net.discovered && d.node.url == url && d.expiresAt > now {
        assert d in Fresh(net.discovered, now);
      }
    }
  }
}
