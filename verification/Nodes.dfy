/** Upstream nodes as the registry, the health checker and the failover loops share them
    (pkg/networks/types.go, pkg/registry/type.go). */
module Nodes {
  datatype Node = Node(url: string, priority: int, headers: map<string, string>, tor: bool)

  /** A node together with the result of its last health check. */
  datatype Checked = Checked(node: Node, alive: bool, ping: int)

  /** No URL occurs twice. */
  predicate UrlDistinct(xs: seq<Node>) {
    forall i, j :: 0 <= i < j < |xs| ==> xs[i].url != xs[j].url
  }

  predicate CheckedUrlDistinct(xs: seq<Checked>) {
    forall i, j :: 0 <= i < j < |xs| ==> xs[i].node.url != xs[j].node.url
  }

  /** Priorities strictly ascend, as in every list `PickFastestPerPriority` returns. */
  predicate Ascending(xs: seq<Checked>) {
    forall i, j :: 0 <= i < j < |xs| ==> xs[i].node.priority < xs[j].node.priority
  }

  function Urls(xs: seq<Node>): set<string> {
    set x | x in xs :: x.url
  }

  function CheckedUrls(xs: seq<Checked>): set<string> {
    set x | x in xs :: x.node.url
  }
}
