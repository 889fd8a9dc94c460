/** The gas endpoint's cache (pkg/api/gas.go, `serveGenericGas`): a body fetched or computed for a network
    is served until its time to live has passed. */
module GasCache {
  import opened Common

  type Time = int
  type Body = string

  datatype Entry = Entry(body: Body, exp: Time)

  /** The official endpoint's answer: an error, or a status code and a body. */
  datatype Official = Failed | Answered(code: nat, body: Body)

  /** One request: the clock when the cache is checked and when the cache is filled, and what the official
      endpoint and, in order, the computations on the network's best nodes would return. */
  datatype Request = Request(network: string, checked: Time, filled: Time, official: Official,
                             computed: seq<Option<Body>>)

  datatype Source = FromCache | FromOfficial | FromNodes | Unavailable | CalcFailed

  datatype Reply = Reply(source: Source, body: Body)

  predicate OfficialOk(o: Official) {
    o.Answered? && o.code / 100 == 2
  }

  /** The first computation that succeeds. */
  function FirstComputed(cs: seq<Option<Body>>): Option<Body> {
    if cs == [] then None else if cs[0].Some? then cs[0] else FirstComputed(cs[1..])
  }

  /** What the request obtains from outside the cache; an empty computed body counts as a failure. */
  function Obtained(r: Request): Option<Body> {
    if OfficialOk(r.official) then Some(r.official.body)
    else
      var out := FirstComputed(r.computed);
      if out.Some? && out.value != "" then out else None
  }

  predicate ComputedFirst(cs: seq<Option<Body>>, i: int, b: Body) {
    0 <= i < |cs| && cs[i] == Some(b) && forall j :: 0 <= j < i ==> cs[j].None?
  }

  lemma {:induction false} FirstComputedIff(cs: seq<Option<Body>>, b: Body)
    ensures FirstComputed(cs) == Some(b) <==> exists i :: ComputedFirst(cs, i, b)
  {
    if cs != [] && cs[0].None? {
      FirstComputedIff(cs[1..], b);
      if i :| ComputedFirst(cs[1..], i, b) {
        assert ComputedFirst(cs, i + 1, b);
      }
      if i :| ComputedFirst(cs, i, b) {
        assert ComputedFirst(cs[1..], i - 1, b);
      }
    } else if cs != [] && cs[0] == Some(b) {
      assert ComputedFirst(cs, 0, b);
    }
  }

  /** What a request obtains: the official body at a status from 200 to 299, otherwise the body of the first
      node that computes one, unless that is empty. */
  lemma ObtainedIff(r: Request, b: Body)
    ensures Obtained(r) == Some(b) <==>
            if r.official.Answered? && 200 <= r.official.code <= 299 then b == r.official.body
            else b != "" && exists i :: ComputedFirst(r.computed, i, b)
  {
    FirstComputedIff(r.computed, b);
  }

  /** A fill: which network was filled when, with what. */
  datatype Fill = Fill(network: string, at: Time, body: Body)

  function FillOf(r: Request): Fill
    requires Obtained(r).Some?
  {
    Fill(r.network, r.filled, Obtained(r).value)
  }

  predicate Hit(entries: map<string, Entry>, r: Request) {
    r.network in entries && r.checked < entries[r.network].exp
  }

  /** What a sequence of fills leaves in the cache. */
  function Entries(fills: seq<Fill>, ttl: map<string, int>): map<string, Entry>
    requires forall i :: 0 <= i < |fills| ==> fills[i].network in ttl
  {
    if fills == [] then map[]
    else
      var f := fills[|fills| - 1];
      Entries(fills[..|fills| - 1], ttl)[f.network := Entry(f.body, f.at + ttl[f.network])]
  }

  /** The fills after one more request: nothing is filled on a hit, on failure, or without an oracle. */
  function NextFills(before: seq<Fill>, r: Request, ttl: map<string, int>): (after: seq<Fill>)
    requires forall i :: 0 <= i < |before| ==> before[i].network in ttl
    ensures forall i :: 0 <= i < |after| ==> after[i].network in ttl
  {
    if r.network in ttl && !Hit(Entries(before, ttl), r) && Obtained(r).Some? then before + [FillOf(r)] else before
  }

  class Cache {
    /** The time to live per network; only EVM networks have a gas oracle. */
    const ttl: map<string, int>
    var entries: map<string, Entry>
    ghost var fills: seq<Fill>

    ghost predicate Valid()
      reads this
    {
      (forall i :: 0 <= i < |fills| ==> fills[i].network in ttl) && entries == Entries(fills, ttl)
    }

    constructor (ttl: map<string, int>)
      ensures Valid() && fills == [] && this.ttl == ttl
    {
      this.ttl := ttl;
      entries := map[];
      fills := [];
    }

    method Store(network: string, body: Body, now: Time)
      requires Valid() && network in ttl
      modifies this
      ensures Valid() && fills == old(fills) + [Fill(network, now, body)]
    {
      entries := entries[network := Entry(body, now + ttl[network])];
      fills := fills + [Fill(network, now, body)];
      SnocInit(old(fills), Fill(network, now, body));
    }

    /** Serves one request; a network without an oracle is not handled at all. */
    method ServeGenericGas(r: Request) returns (reply: Option<Reply>)
      requires Valid()
      modifies this
      ensures Valid()
      ensures reply.None? <==> r.network !in ttl
      ensures fills == NextFills(old(fills), r, ttl)
      ensures fills == old(fills) ==> entries == old(entries)
      ensures r.network in ttl && Hit(old(entries), r) ==>
                reply == Some(Reply(FromCache, old(entries)[r.network].body))
      ensures r.network in ttl && !Hit(old(entries), r) && Obtained(r).Some? ==>
                reply == Some(Reply(if OfficialOk(r.official) then FromOfficial else FromNodes, Obtained(r).value))
      ensures r.network in ttl && !Hit(old(entries), r) && Obtained(r).None? ==>
                reply == Some(Reply(if r.computed == [] then Unavailable else CalcFailed, ""))
    {
      if r.network !in ttl {
        return None;
      }
      if r.network in entries && r.checked < entries[r.network].exp {
        return Some(Reply(FromCache, entries[r.network].body));
      }
      if r.official.Answered? && r.official.code / 100 == 2 {
        Store(r.network, r.official.body, r.filled);
        return Some(Reply(FromOfficial, r.official.body));
      }
      if |r.computed| == 0 {
        return Some(Reply(Unavailable, ""));
      }
      var out := "";
      var i := 0;
      while i < |r.computed|
        invariant 0 <= i <= |r.computed| && out == ""
        invariant FirstComputed(r.computed) == FirstComputed(r.computed[i..])
      {
        if r.computed[i].Some? {
          out := r.computed[i].value;
          break;
        }
        i := i + 1;
      }
      if |out| == 0 {
        return Some(Reply(CalcFailed, ""));
      }
      Store(r.network, out, r.filled);
      reply := Some(Reply(FromNodes, out));
    }
  }

  // ----- Timed runs -----

  /** The fills a sequence of requests makes, starting with an empty cache. */
  function Fills(rs: seq<Request>, ttl: map<string, int>): (fs: seq<Fill>)
    ensures forall i :: 0 <= i < |fs| ==> fs[i].network in ttl
  {
    if rs == [] then []
    else
      NextFills(Fills(rs[..|rs| - 1], ttl), rs[|rs| - 1], ttl)
  }

  /** The clock never runs backwards, within and across requests. */
  predicate Clocked(rs: seq<Request>) {
    && (forall i :: 0 <= i < |rs| ==> rs[i].checked <= rs[i].filled)
    && (forall i, j :: 0 <= i < j < |rs| ==> rs[i].filled <= rs[j].checked)
  }

  /** What the cache holds for a network is its last fill. */
  lemma {:induction false} EntryIsLastFill(fills: seq<Fill>, ttl: map<string, int>, network: string)
    returns (last: nat)
    requires forall i :: 0 <= i < |fills| ==> fills[i].network in ttl
    requires network in Entries(fills, ttl)
    ensures last < |fills| && fills[last].network == network
    ensures forall j :: last < j < |fills| ==> fills[j].network != network
    ensures Entries(fills, ttl)[network] == Entry(fills[last].body, fills[last].at + ttl[network])
  {
    var n := |fills| - 1;
    if fills[n].network == network {
      last := n;
    } else {
      last := EntryIsLastFill(fills[..n], ttl, network);
    }
  }

  lemma {:induction false} FilledIsCached(fills: seq<Fill>, ttl: map<string, int>, i: nat)
    requires forall k :: 0 <= k < |fills| ==> fills[k].network in ttl
    requires i < |fills|
    ensures fills[i].network in Entries(fills, ttl)
  {
    if i < |fills| - 1 {
      FilledIsCached(fills[..|fills| - 1], ttl, i);
    }
  }

  /** Every fill was obtained, by a request of the run for the same network, from a 2xx answer of the
      official endpoint or from a successful computation, at the instant it records. */
  lemma {:induction false} FillsAreObtained(rs: seq<Request>, ttl: map<string, int>, i: nat) returns (k: nat)
    requires i < |Fills(rs, ttl)|
    ensures k < |rs| && Obtained(rs[k]).Some? && FillOf(rs[k]) == Fills(rs, ttl)[i]
  {
    var n := |rs| - 1;
    var before := Fills(rs[..n], ttl);
    if i < |before| {
      k := FillsAreObtained(rs[..n], ttl, i);
    } else {
      k := n;
    }
  }

  /** Request `k` of the run obtained what the cache holds for the network of `r`, less than its TTL before
      `r` looks there. */
  predicate Backs(rs: seq<Request>, ttl: map<string, int>, r: Request, k: int)
    requires r.network in Entries(Fills(rs, ttl), ttl)
  {
    && 0 <= k < |rs| && rs[k].network == r.network && r.network in ttl
    && Obtained(rs[k]) == Some(Entries(Fills(rs, ttl), ttl)[r.network].body)
    && r.checked < rs[k].filled + ttl[r.network]
  }

  /** A body served from the cache was obtained for the same network less than its TTL earlier. */
  lemma ServedIsFresh(rs: seq<Request>, ttl: map<string, int>, r: Request)
    requires Hit(Entries(Fills(rs, ttl), ttl), r)
    ensures exists k :: Backs(rs, ttl, r, k)
  {
    var last := EntryIsLastFill(Fills(rs, ttl), ttl, r.network);
    var k := FillsAreObtained(rs, ttl, last);
    assert Backs(rs, ttl, r, k);
  }

  /** `i` is the last fill of the network, and its time has not run out when `r` looks. */
  predicate StillGood(fills: seq<Fill>, ttl: map<string, int>, r: Request, i: int) {
    && 0 <= i < |fills| && fills[i].network == r.network && r.network in ttl
    && (forall j :: i < j < |fills| ==> fills[j].network != r.network)
    && r.checked < fills[i].at + ttl[r.network]
  }

  /** A request is answered from the cache exactly while its network's last fill is still good. */
  lemma HitIff(rs: seq<Request>, ttl: map<string, int>, r: Request)
    ensures Hit(Entries(Fills(rs, ttl), ttl), r) <==> exists i :: StillGood(Fills(rs, ttl), ttl, r, i)
  {
    var fills := Fills(rs, ttl);
    if r.network in Entries(fills, ttl) {
      var last := EntryIsLastFill(fills, ttl, r.network);
      assert Hit(Entries(fills, ttl), r) ==> StillGood(fills, ttl, r, last);
    }
    if i :| StillGood(fills, ttl, r, i) {
      FilledIsCached(fills, ttl, i);
    }
  }

  /** A request that misses and obtains a body puts it into the cache: every later request for the network
      within the TTL gets it. No other request changes anything. */
  lemma MissIsCached(rs: seq<Request>, ttl: map<string, int>, r: Request, later: Request)
    ensures r.network !in ttl || Hit(Entries(Fills(rs, ttl), ttl), r) || Obtained(r).None? ==>
              Fills(rs + [r], ttl) == Fills(rs, ttl)
    ensures r.network in ttl && !Hit(Entries(Fills(rs, ttl), ttl), r) && Obtained(r).Some?
            && later.network == r.network && later.checked < r.filled + ttl[r.network] ==>
              && Hit(Entries(Fills(rs + [r], ttl), ttl), later)
              && Entries(Fills(rs + [r], ttl), ttl)[r.network].body == Obtained(r).value
  {
    SnocInit(rs, r);
    if Obtained(r).Some? {
      SnocInit(Fills(rs, ttl), FillOf(r));
    }
  }

  /** Any two fills of one network are at least its TTL apart. */
  lemma {:induction false} FillsAreApart(rs: seq<Request>, ttl: map<string, int>, i: nat, j: nat)
    requires Clocked(rs) && i < j < |Fills(rs, ttl)|
    requires forall n :: n in ttl ==> ttl[n] >= 0
    requires Fills(rs, ttl)[i].network == Fills(rs, ttl)[j].network
    ensures Fills(rs, ttl)[j].at >= Fills(rs, ttl)[i].at + ttl[Fills(rs, ttl)[i].network]
  {
    var n := |rs| - 1;
    var before := Fills(rs[..n], ttl);
    if j < |before| {
      FillsAreApart(rs[..n], ttl, i, j);
    } else {
      var network := rs[n].network;
      FilledIsCached(before, ttl, i);
      var last := EntryIsLastFill(before, ttl, network);
      if i < last {
        FillsAreApart(rs[..n], ttl, i, last);
      }
    }
  }

  /** The fills of one network between the instants `a` and `b`. */
  function Within(network: string, a: Time, b: Time): Fill -> bool {
    (f: Fill) => f.network == network && a <= f.at <= b
  }

  /** Fills of the network are at least `gap` apart. */
  predicate Apart(fills: seq<Fill>, network: string, gap: int) {
    forall i, j :: 0 <= i < j < |fills| && fills[i].network == network && fills[j].network == network ==>
      fills[j].at >= fills[i].at + gap
  }

  /** `k` gaps: `k * gap`, kept linear for the induction. */
  function Gaps(k: nat, gap: int): int {
    if k == 0 then 0 else Gaps(k - 1, gap) + gap
  }

  lemma {:induction false} GapsProduct(k: nat, gap: int)
    ensures Gaps(k, gap) == k * gap
  {
    if k > 0 {
      GapsProduct(k - 1, gap);
      assert (k - 1) * gap + gap == k * gap;
    }
  }

  lemma ApartInit(fills: seq<Fill>, network: string, gap: int)
    requires fills != [] && Apart(fills, network, gap)
    ensures Apart(fills[..|fills| - 1], network, gap)
  {
  }

  /** The last of the fills in a window lies as many gaps after its start as others came before it. */
  lemma {:induction false} LastWithin(fills: seq<Fill>, network: string, a: Time, b: Time, gap: int) returns (l: nat)
    requires gap >= 0 && Apart(fills, network, gap)
    requires Filter(fills, Within(network, a, b)) != []
    ensures l < |fills| && fills[l].network == network && fills[l].at <= b
    ensures fills[l].at >= a + Gaps(|Filter(fills, Within(network, a, b))| - 1, gap)
  {
    var n := |fills| - 1;
    var init := fills[..n];
    ApartInit(fills, network, gap);
    if Filter(init, Within(network, a, b)) == [] {
      l := n;
    } else {
      var m := LastWithin(init, network, a, b, gap);
      if Within(network, a, b)(fills[n]) {
        l := n;
        assert init[m] == fills[m] && fills[n].at >= fills[m].at + gap;
      } else {
        l := m;
      }
    }
  }

  /** In a window of length `b - a` a network is filled at most (b - a) / TTL + 1 times. */
  lemma {:induction false} FillsPerWindow(rs: seq<Request>, ttl: map<string, int>, network: string, a: Time, b: Time)
    requires Clocked(rs) && network in ttl && a <= b
    requires forall n :: n in ttl ==> ttl[n] >= 0
    ensures (|Filter(Fills(rs, ttl), Within(network, a, b))| - 1) * ttl[network] <= b - a
  {
    var fills, gap := Fills(rs, ttl), ttl[network];
    forall i, j | 0 <= i < j < |fills| && fills[i].network == network && fills[j].network == network
      ensures fills[j].at >= fills[i].at + gap
    {
      FillsAreApart(rs, ttl, i, j);
    }
    if Filter(fills, Within(network, a, b)) != [] {
      var l := LastWithin(fills, network, a, b, gap);
      GapsProduct(|Filter(fills, Within(network, a, b))| - 1, gap);
    }
  }
}
