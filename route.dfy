/**
  `handleComputeRoute`: the route query of the map component. It builds a
  fresh `Graph` over the current intersections, inserts every road in both
  directions, and asks it for the shortest path between the two selected
  intersections.
 */
module Route {

  import opened Wrappers
  import opened Walks
  import opened RoadGraph
  import opened Editor

  /** The ids handed to the graph, in list order (`nodes.map(n => `${n.id}`)`). */
  function Ids(nodes: seq<Node>): (ids: seq<NodeId>)
    ensures |ids| == |nodes|
    ensures forall i :: 0 <= i < |nodes| ==> ids[i] == nodes[i].id
  {
    if nodes == [] then [] else [nodes[0].id] + Ids(nodes[1..])
  }

  /** The graph's node set. */
  ghost function IdSet(nodes: seq<Node>): set<NodeId> {
    set n | n in Ids(nodes)
  }

  /** The adjacency map of a freshly constructed graph: an empty list per id. */
  ghost function EmptyLists(ids: seq<NodeId>): (adj: AdjList)
    ensures forall n :: n in adj <==> n in ids
    ensures forall n :: Neighbors(adj, n) == []
  {
    map n | n in ids :: []
  }

  /** The adjacency map after `addEdge(u, x.node, x.weight)`. */
  ghost function Append(adj: AdjList, u: NodeId, x: Entry): (r: AdjList)
    ensures r.Keys == adj.Keys + {u}
  {
    adj[u := Neighbors(adj, u) + [x]]
  }

  /** The adjacency map after inserting the roads of `edges`, in order, each in both directions. */
  ghost function Snapshot(ids: seq<NodeId>, edges: seq<Edge>): (adj: AdjList)
    ensures forall n :: n in ids ==> n in adj
    decreases |edges|
  {
    if edges == [] then EmptyLists(ids)
    else
      var e := edges[|edges| - 1];
      Append(Append(Snapshot(ids, edges[..|edges| - 1]), e.from, Entry(e.to, e.weight)), e.to, Entry(e.from, e.weight))
  }

  /** Road `e` joins `u` and `v` (in either direction) with weight `w`. */
  predicate Carries(e: Edge, u: NodeId, v: NodeId, w: nat) {
    e.weight == w && ((e.from == u && e.to == v) || (e.from == v && e.to == u))
  }

  /** `addEdge` adds exactly one entry, to exactly one list. */
  lemma AppendEntries(adj: AdjList, x: NodeId, e: Entry, u: NodeId, y: Entry)
    ensures y in Neighbors(Append(adj, x, e), u) <==> y in Neighbors(adj, u) || (u == x && y == e)
  {
  }

  /** Inserting one more road adds exactly its two directed entries. */
  lemma SnapshotStep(ids: seq<NodeId>, edges: seq<Edge>, u: NodeId, v: NodeId, w: nat)
    requires edges != []
    ensures var e := edges[|edges| - 1];
      Entry(v, w) in Neighbors(Snapshot(ids, edges), u) <==>
        Entry(v, w) in Neighbors(Snapshot(ids, edges[..|edges| - 1]), u) || Carries(e, u, v, w)
  {
    var e := edges[|edges| - 1];
    var a0 := Snapshot(ids, edges[..|edges| - 1]);
    var a1 := Append(a0, e.from, Entry(e.to, e.weight));
    AppendEntries(a0, e.from, Entry(e.to, e.weight), u, Entry(v, w));
    AppendEntries(a1, e.to, Entry(e.from, e.weight), u, Entry(v, w));
  }

  /** The entries of the snapshot are exactly the roads, taken in both directions. */
  lemma {:induction false} SnapshotEntries(ids: seq<NodeId>, edges: seq<Edge>, u: NodeId, v: NodeId, w: nat)
    ensures Entry(v, w) in Neighbors(Snapshot(ids, edges), u) <==> exists e :: e in edges && Carries(e, u, v, w)
    decreases |edges|
  {
    if edges == [] {
      assert Neighbors(EmptyLists(ids), u) == [];
    } else {
      var n := |edges| - 1;
      var e, rest := edges[n], edges[..n];
      assert edges == rest + [e];
      SnapshotEntries(ids, rest, u, v, w);
      SnapshotStep(ids, edges, u, v, w);
      if exists x :: x in edges && Carries(x, u, v, w) {
        var x :| x in edges && Carries(x, u, v, w);
        if x != e {
          assert x in rest;
        }
      }
    }
  }

  /** The snapshot is symmetric: every entry has its mirror image. */
  lemma SnapshotSymmetric(ids: seq<NodeId>, edges: seq<Edge>)
    ensures Symmetric(Snapshot(ids, edges))
  {
    var adj := Snapshot(ids, edges);
    forall u, v, w | Entry(v, w) in Neighbors(adj, u)
      ensures Entry(u, w) in Neighbors(adj, v)
    {
      SnapshotEntries(ids, edges, u, v, w);
      var e :| e in edges && Carries(e, u, v, w);
      assert Carries(e, v, u, w);
      SnapshotEntries(ids, edges, v, u, w);
    }
  }

  /** Over the snapshot, reachability and the shortest distance do not depend on the direction of travel. */
  lemma RouteSymmetric(ids: seq<NodeId>, edges: seq<Edge>, ns: set<NodeId>, a: NodeId, b: NodeId, k: nat)
    ensures Reachable(Snapshot(ids, edges), ns, a, b) ==> Reachable(Snapshot(ids, edges), ns, b, a)
    ensures Shortest(Snapshot(ids, edges), ns, a, b, k) ==> Shortest(Snapshot(ids, edges), ns, b, a, k)
  {
    var adj := Snapshot(ids, edges);
    SnapshotSymmetric(ids, edges);
    if Reachable(adj, ns, a, b) {
      var p, ws :| WalkIn(adj, ns, p, ws) && Connects(p, a, b);
      ReverseWalk(adj, ns, p, ws);
      assert Connects(Reversed(p), b, a);
    }
    if Shortest(adj, ns, a, b, k) {
      ShortestSymmetric(adj, ns, a, b, k);
    }
  }

  /** `new Graph(...)` and the `edges.forEach` that follows it: construct the graph over `ids`, then add every road forwards and backwards. */
  method BuildGraph(ids: seq<NodeId>, edges: seq<Edge>) returns (g: Graph)
    ensures g.nodes == ids && g.adjList == Snapshot(ids, edges)
  {
    g := new Graph(ids);
    assert g.adjList == EmptyLists(ids);
    for i := 0 to |edges|
      invariant g.nodes == ids && g.adjList == Snapshot(ids, edges[..i])
    {
      var e := edges[i];
      g.AddEdge(e.from, e.to, e.weight);
      g.AddEdge(e.to, e.from, e.weight);
      assert edges[..i + 1][..i] == edges[..i];
    }
    assert edges[..|edges|] == edges;
  }

  /**
    `handleComputeRoute`: rejects a missing start or end; otherwise the route
    is the path `shortestPath` returns, or the empty route when it finds none.
    Distances are measured over the snapshot of the current roads, on walks
    through known intersections.
   */
  method ComputeRoute(nodes: seq<Node>, edges: seq<Edge>, start: NodeId, end: NodeId) returns (r: Outcome<seq<NodeId>>)
    ensures r.Rejected? <==> start == "" || end == ""
    ensures r.Rejected? ==> r.reason == MissingInput
    ensures r.Updated? && start == end ==> r.value == [start]
    ensures r.Updated? && !HasId(nodes, end) && start != end ==> r.value == [end]
    ensures r.Updated? && HasId(nodes, end) ==>
              (r.value == [] <==> !Reachable(Snapshot(Ids(nodes), edges), IdSet(nodes), start, end))
    ensures r.Updated? && HasId(nodes, end) && r.value != [] && !HasId(nodes, "") ==>
              && Connects(r.value, start, end)
              && exists ws :: && WalkIn(Snapshot(Ids(nodes), edges), IdSet(nodes), r.value, ws)
                              && Shortest(Snapshot(Ids(nodes), edges), IdSet(nodes), start, end, Sum(ws))
  {
    if start == "" || end == "" {
      return Rejected(MissingInput);
    }
    var ids := Ids(nodes);
    ghost var ns := IdSet(nodes);
    assert HasId(nodes, end) <==> end in ns by {
      if HasId(nodes, end) {
        var x :| x in nodes && x.id == end;
        var i :| 0 <= i < |nodes| && nodes[i] == x;
        assert ids[i] == end;
      }
    }
    assert HasId(nodes, "") <==> "" in ns by {
      if "" in ns {
        var i :| 0 <= i < |ids| && ids[i] == "";
        assert nodes[i] in nodes;
      }
    }
    var g := BuildGraph(ids, edges);
    var res := g.ShortestPath(start, end);
    if res.NoPath? {
      r := Updated([]);
    } else {
      r := Updated(res.path);
      if res.Found? && end in ns && "" !in ns {
        var ws :| WalkIn(g.adjList, ns, res.path, ws) && Sum(ws) == res.distance;
      }
    }
  }
}
