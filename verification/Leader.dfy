/** Leader election (pkg/leader): the smallest known ID leads. */
module Leader {
  import opened Common
  import opened Peers

  ghost predicate IsLeast(m: string, ids: set<string>) {
    m in ids && forall k :: k in ids ==> AtMost(m, k)
  }

  lemma LeastUnique(m: string, n: string, ids: set<string>)
    requires IsLeast(m, ids) && IsLeast(n, ids)
    ensures m == n
  {
    BelowTotal(m, n);
  }

  lemma {:induction false} LeastExists(ids: set<string>) returns (m: string)
    requires ids != {}
    ensures IsLeast(m, ids)
    decreases ids
  {
    var k :| k in ids;
    if ids == {k} {
      m := k;
    } else {
      var m' := LeastExists(ids - {k});
      BelowTotal(m', k);
      m := if AtMost(m', k) then m' else k;
      forall j | j in ids ensures AtMost(m, j) {
        if j != k {
          BelowTransitive(m, m', j);
        }
      }
    }
  }

  /** The leader a node with this ID set follows; the empty string when it knows nobody. */
  ghost function LeaderOf(ids: set<string>): (m: string)
    ensures ids != {} ==> IsLeast(m, ids)
    ensures ids == {} ==> m == ""
  {
    if ids == {} then ""
    else
      assert exists m :: IsLeast(m, ids) by { var m := LeastExists(ids); }
      var m :| IsLeast(m, ids);
      m
  }

  /** Whatever order the map iteration produced, the elected ID depends on the set of IDs alone. */
  method Elect(peersList: seq<Peer>) returns (min: string)
    ensures min == LeaderOf(Ids(peersList))
  {
    if |peersList| == 0 {
      return "";
    }
    min := peersList[0].id;
    for i := 0 to |peersList|
      invariant exists j :: 0 <= j < |peersList| && peersList[j].id == min
      invariant forall j :: 0 <= j < i ==> AtMost(min, peersList[j].id)
    {
      BelowTotal(peersList[i].id, min);
      if Below(peersList[i].id, min) {
        forall j | 0 <= j < i ensures AtMost(peersList[i].id, peersList[j].id) {
          BelowTransitive(peersList[i].id, min, peersList[j].id);
        }
        min := peersList[i].id;
      }
    }
    assert peersList[0] in peersList;
    assert IsLeast(min, Ids(peersList));
    LeastUnique(min, LeaderOf(Ids(peersList)), Ids(peersList));
  }

  /** Learning of more peers can only move the leader towards smaller IDs. */
  lemma LeaderNeverIncreases(ids: set<string>, more: set<string>)
    requires ids != {} && ids <= more
    ensures AtMost(LeaderOf(more), LeaderOf(ids))
  {
  }
}
