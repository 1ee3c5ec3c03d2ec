/**
  The `Graph` class of the map component: an adjacency map filled by
  `AddEdge`, and `ShortestPath`, a Dijkstra search without a priority
  queue that scans every node for the closest unvisited one, relaxes its
  outgoing entries, and finally follows `prev` pointers back from `end`.
 */
module RoadGraph {

  import opened Wrappers
  import opened Walks

  /** A tentative distance: a number, or `Infinity` for "not reached yet". */
  datatype Dist = Fin(value: nat) | Infinity

  /** The numeric `<` of the source on these values. */
  predicate Less(a: Dist, b: Dist)
    ensures Less(a, b) ==> a.Fin?
    ensures a.Fin? && b.Infinity? ==> Less(a, b)
    ensures a.Fin? && b.Fin? ==> (Less(a, b) <==> a.value < b.value)
  {
    match a
    case Infinity => false
    case Fin(x) => b.Infinity? || x < b.value
  }

  predicate AtMost(a: Dist, b: Dist) {
    !Less(b, a)
  }

  /**
    What `shortestPath` returns: `null` (NoPath), or a path with its
    distance. When `end` has no entry in the distance table (it is not a
    node and not `start`) the source still builds a path but its distance is
    `undefined`: that is UnknownEnd.
   */
  datatype PathResult =
    | NoPath
    | Found(path: seq<NodeId>, distance: nat)
    | UnknownEnd(path: seq<NodeId>)

  type DistTable = map<NodeId, Dist>
  type PrevTable = map<NodeId, Option<NodeId>>

  /** `prev[n]`: a missing entry (`undefined`) and `null` both end the walk back. */
  function PrevOf(prev: PrevTable, n: NodeId): (r: Option<NodeId>)
    ensures r.Some? <==> n in prev && prev[n].Some?
    ensures r.Some? ==> r.value == prev[n].value
  {
    if n in prev then prev[n] else None
  }

  // ---------------------------------------------------------------------
  // Selecting the next node (the `this.nodes.forEach` scan for `current`)
  // ---------------------------------------------------------------------

  /**
    `nodes[j]` is what the scan picks: an unvisited node with a finite
    distance that no unvisited node beats, and, because the comparison is a
    strict `<`, every unvisited node before it is strictly farther.
   */
  ghost predicate FirstMin(nodes: seq<NodeId>, visited: set<NodeId>, dist: DistTable, j: nat)
    requires j < |nodes| && forall n :: n in nodes ==> n in dist
  {
    && nodes[j] !in visited
    && dist[nodes[j]].Fin?
    && (forall n :: n in nodes && n !in visited ==> AtMost(dist[nodes[j]], dist[n]))
    && (forall k :: 0 <= k < j && nodes[k] !in visited ==> Less(dist[nodes[j]], dist[nodes[k]]))
  }

  // ---------------------------------------------------------------------
  // What one relaxation pass does (the `forEach` over `current`'s entries)
  // ---------------------------------------------------------------------

  /** Distances only go down, and the table keeps its keys. */
  ghost predicate OnlyLowers(dist: DistTable, dist': DistTable) {
    dist'.Keys == dist.Keys && forall n :: n in dist ==> AtMost(dist'[n], dist[n])
  }

  /** Visited nodes keep their distances. */
  ghost predicate KeepsVisited(dist: DistTable, dist': DistTable, visited: set<NodeId>) {
    forall n :: n in visited && n in dist && n in dist' ==> dist'[n] == dist[n]
  }

  /** `prev[n]` becomes `u` exactly for the nodes whose distance strictly improved. */
  ghost predicate PrevTracks(u: NodeId, dist: DistTable, dist': DistTable, prev: PrevTable, prev': PrevTable) {
    forall n :: PrevOf(prev', n) == if n in dist && n in dist' && Less(dist'[n], dist[n]) then Some(u) else PrevOf(prev, n)
  }

  /** Afterwards no unvisited neighbour of `u` is farther than `dist[u]` plus the entry's weight. */
  ghost predicate EdgesRelaxed(adj: AdjList, u: NodeId, visited: set<NodeId>, dist: DistTable, dist': DistTable) {
    && u in dist && dist[u].Fin?
    && forall e :: e in Neighbors(adj, u) && e.node in dist && e.node in dist' && e.node !in visited ==>
         AtMost(dist'[e.node], Fin(dist[u].value + e.weight))
  }

  /** Every improved distance is `dist[u]` plus the weight of one of `u`'s entries. */
  ghost predicate ImprovedByEdge(adj: AdjList, u: NodeId, dist: DistTable, dist': DistTable) {
    && u in dist && dist[u].Fin?
    && forall n :: n in dist && n in dist' && Less(dist'[n], dist[n]) ==>
         && dist'[n].Fin?
         && dist[u].value <= dist'[n].value
         && Entry(n, dist'[n].value - dist[u].value) in Neighbors(adj, u)
  }

  // ---------------------------------------------------------------------
  // Invariants of the main loop
  // ---------------------------------------------------------------------

  /** `start` is at distance 0 and has no predecessor; every other reached node has one. */
  ghost predicate Rooted(start: NodeId, dist: DistTable, prev: PrevTable) {
    && start in dist && dist[start] == Fin(0) && PrevOf(prev, start) == None
    && forall n {:trigger PrevOf(prev, n)} :: n in dist && n != start && dist[n].Fin? ==> PrevOf(prev, n).Some?
  }

  /**
    `rank` numbers the visited nodes in visiting order; a predecessor is
    always visited, and visited before the node it precedes, so the `prev`
    chain cannot cycle.
   */
  ghost predicate Acyclic(prev: PrevTable, rank: map<NodeId, nat>) {
    forall n :: PrevOf(prev, n).Some? ==>
      PrevOf(prev, n).value in rank && (n in rank ==> rank[PrevOf(prev, n).value] < rank[n])
  }

  /** Each `prev` link is an adjacency entry whose weight is the difference of the two distances. */
  ghost predicate PrevLinks(adj: AdjList, dist: DistTable, prev: PrevTable, visited: set<NodeId>) {
    forall n :: PrevOf(prev, n).Some? ==>
      var p := PrevOf(prev, n).value;
      && p in visited && n in dist && p in dist
      && dist[n].Fin? && dist[p].Fin?
      && dist[p].value <= dist[n].value
      && Entry(n, dist[n].value - dist[p].value) in Neighbors(adj, p)
  }

  /** Every entry out of a visited node has been relaxed. */
  ghost predicate Relaxed(adj: AdjList, dist: DistTable, visited: set<NodeId>) {
    forall x, e :: x in visited && x in dist && dist[x].Fin? && e in Neighbors(adj, x) && e.node in dist && e.node !in visited ==>
      AtMost(dist[e.node], Fin(dist[x].value + e.weight))
  }

  /** Visited nodes carry their final, shortest distance. */
  ghost predicate Settled(adj: AdjList, ns: set<NodeId>, start: NodeId, dist: DistTable, visited: set<NodeId>) {
    forall x :: x in visited ==> x in dist && dist[x].Fin? && NoShorter(adj, ns, start, x, dist[x].value)
  }

  // ---------------------------------------------------------------------
  // Following prev pointers (the `while (u)` loop that `unshift`s the path)
  // ---------------------------------------------------------------------

  /** The node sequence the walk back from `u` produces; `while (u)` stops on null and on "". */
  ghost function Trace(prev: PrevTable, rank: map<NodeId, nat>, u: Option<NodeId>): seq<NodeId>
    requires Acyclic(prev, rank)
    decreases (if u.None? then 0 else if u.value in rank then 1 else 2),
              (if u.Some? && u.value in rank then rank[u.value] else 0)
  {
    if u.None? || u.value == "" then [] else Trace(prev, rank, PrevOf(prev, u.value)) + [u.value]
  }

  /** The reconstruction loop: prepend `u` and step to `prev[u]` while `u` is truthy. */
  method Walkback(prev: PrevTable, end: NodeId, ghost rank: map<NodeId, nat>) returns (path: seq<NodeId>)
    requires Acyclic(prev, rank)
    ensures path == Trace(prev, rank, Some(end))
  {
    path := [];
    var u := Some(end);
    while u.Some? && u.value != ""
      invariant Trace(prev, rank, u) + path == Trace(prev, rank, Some(end))
      decreases (if u.None? then 0 else if u.value in rank then 1 else 2),
                (if u.Some? && u.value in rank then rank[u.value] else 0)
    {
      path := [u.value] + path;
      u := PrevOf(prev, u.value);
    }
  }

  // ---------------------------------------------------------------------
  // The correctness argument
  // ---------------------------------------------------------------------

  lemma AtMostTrans(a: Dist, b: Dist, c: Dist)
    requires AtMost(a, b) && AtMost(b, c)
    ensures AtMost(a, c)
  {
  }

  /**
    Any walk inside `ns` from `start` to an unvisited node passes an unvisited
    node whose tentative distance is finite and no larger than the walk's
    weight: the first unvisited node on it, reached from a settled node
    by a relaxed entry.
   */
  lemma {:induction false} Frontier(adj: AdjList, ns: set<NodeId>, start: NodeId, dist: DistTable, visited: set<NodeId>,
                                   p: seq<NodeId>, ws: seq<nat>) returns (z: NodeId)
    requires ns <= dist.Keys && start in dist && dist[start] == Fin(0)
    requires Relaxed(adj, dist, visited) && Settled(adj, ns, start, dist, visited)
    requires WalkIn(adj, ns, p, ws) && |p| > 0 && p[0] == start && p[|p| - 1] !in visited
    ensures z in ns && z !in visited && dist[z].Fin? && dist[z].value <= Sum(ws)
    decreases |p|
  {
    if |p| == 1 {
      z := start;
    } else {
      var n := |ws|;
      var x, y, w := p[n - 1], p[n], ws[n - 1];
      WalkPrefix(adj, ns, p, ws, n);
      assert Sum(ws) == Sum(ws[..n - 1]) + w;
      if x in visited {
        assert Connects(p[..n], start, x);
        assert dist[x].value <= Sum(ws[..n - 1]);
        assert Entry(y, w) in Neighbors(adj, x);
        z := y;
      } else {
        z := Frontier(adj, ns, start, dist, visited, p[..n], ws[..n - 1]);
      }
    }
  }

  /** The node the scan picks has its shortest distance already. */
  lemma PickIsShortest(adj: AdjList, nodes: seq<NodeId>, ns: set<NodeId>, start: NodeId, dist: DistTable,
                       visited: set<NodeId>, at: nat)
    requires ns == (set n | n in nodes) && ns <= dist.Keys && start in dist && dist[start] == Fin(0)
    requires Relaxed(adj, dist, visited) && Settled(adj, ns, start, dist, visited)
    requires at < |nodes| && FirstMin(nodes, visited, dist, at)
    ensures NoShorter(adj, ns, start, nodes[at], dist[nodes[at]].value)
  {
    forall p, ws | WalkIn(adj, ns, p, ws) && Connects(p, start, nodes[at])
      ensures dist[nodes[at]].value <= Sum(ws)
    {
      var z := Frontier(adj, ns, start, dist, visited, p, ws);
      assert AtMost(dist[nodes[at]], dist[z]);
    }
  }

  /** Where relaxation did not improve a distance, the distance is unchanged. */
  lemma NotImprovedUnchanged(dist: DistTable, dist': DistTable, n: NodeId)
    requires OnlyLowers(dist, dist') && n in dist && !Less(dist'[n], dist[n])
    ensures dist'[n] == dist[n]
  {
  }

  /** After visiting `u`, start is still the root and reached nodes still have predecessors. */
  lemma StepKeepsRooted(start: NodeId, u: NodeId, dist: DistTable, prev: PrevTable, dist': DistTable, prev': PrevTable)
    requires Rooted(start, dist, prev) && OnlyLowers(dist, dist') && PrevTracks(u, dist, dist', prev, prev')
    ensures Rooted(start, dist', prev')
  {
    forall n | n in dist' && n != start && dist'[n].Fin?
      ensures PrevOf(prev', n).Some?
    {
      if !Less(dist'[n], dist[n]) {
        NotImprovedUnchanged(dist, dist', n);
      }
    }
  }

  /** Giving `u` the next rank keeps the `prev` chain acyclic. */
  lemma StepKeepsAcyclic(u: NodeId, dist: DistTable, prev: PrevTable, visited: set<NodeId>, rank: map<NodeId, nat>,
                         steps: nat, dist': DistTable, prev': PrevTable)
    requires rank.Keys == visited && (forall x :: x in rank ==> rank[x] < steps) && u !in visited
    requires Acyclic(prev, rank) && PrevTracks(u, dist, dist', prev, prev')
    requires KeepsVisited(dist, dist', visited + {u})
    ensures Acyclic(prev', rank[u := steps])
  {
    var rank' := rank[u := steps];
    forall n | PrevOf(prev', n).Some?
      ensures PrevOf(prev', n).value in rank'
      ensures n in rank' ==> rank'[PrevOf(prev', n).value] < rank'[n]
    {
      if n in dist && n in dist' && Less(dist'[n], dist[n]) {
        assert PrevOf(prev', n) == Some(u);
        assert n !in rank';
      } else {
        assert PrevOf(prev', n) == PrevOf(prev, n);
      }
    }
  }

  /** The links set by relaxation are adjacency entries of `u` that match the new distances. */
  lemma StepKeepsPrevLinks(adj: AdjList, u: NodeId, dist: DistTable, prev: PrevTable, visited: set<NodeId>,
                           dist': DistTable, prev': PrevTable)
    requires u !in visited && PrevLinks(adj, dist, prev, visited)
    requires OnlyLowers(dist, dist') && KeepsVisited(dist, dist', visited + {u})
    requires PrevTracks(u, dist, dist', prev, prev') && ImprovedByEdge(adj, u, dist, dist')
    ensures PrevLinks(adj, dist', prev', visited + {u})
  {
    forall n | PrevOf(prev', n).Some?
      ensures var p := PrevOf(prev', n).value;
        && p in visited + {u} && n in dist' && p in dist'
        && dist'[n].Fin? && dist'[p].Fin?
        && dist'[p].value <= dist'[n].value
        && Entry(n, dist'[n].value - dist'[p].value) in Neighbors(adj, p)
    {
      if n in dist && n in dist' && Less(dist'[n], dist[n]) {
        assert PrevOf(prev', n) == Some(u);
        assert dist'[u] == dist[u];
      } else {
        assert PrevOf(prev', n) == PrevOf(prev, n);
        NotImprovedUnchanged(dist, dist', n);
        var p := PrevOf(prev, n).value;
        assert dist'[p] == dist[p];
      }
    }
  }

  /** Entries out of old visited nodes stay relaxed, and `u`'s entries have just been relaxed. */
  lemma StepKeepsRelaxed(adj: AdjList, u: NodeId, dist: DistTable, visited: set<NodeId>, dist': DistTable)
    requires Relaxed(adj, dist, visited)
    requires OnlyLowers(dist, dist') && KeepsVisited(dist, dist', visited + {u})
    requires EdgesRelaxed(adj, u, visited + {u}, dist, dist')
    ensures Relaxed(adj, dist', visited + {u})
  {
    var visited' := visited + {u};
    forall x, e | x in visited' && x in dist' && dist'[x].Fin? && e in Neighbors(adj, x) && e.node in dist' && e.node !in visited'
      ensures AtMost(dist'[e.node], Fin(dist'[x].value + e.weight))
    {
      assert dist'[x] == dist[x];
      if x != u {
        AtMostTrans(dist'[e.node], dist[e.node], Fin(dist[x].value + e.weight));
      }
    }
  }

  /** Settled distances are not touched, and `u` joins them with its shortest distance. */
  lemma StepKeepsSettled(adj: AdjList, ns: set<NodeId>, start: NodeId, u: NodeId, dist: DistTable, visited: set<NodeId>,
                         dist': DistTable)
    requires Settled(adj, ns, start, dist, visited)
    requires u in dist && dist[u].Fin? && NoShorter(adj, ns, start, u, dist[u].value)
    requires OnlyLowers(dist, dist') && KeepsVisited(dist, dist', visited + {u})
    ensures Settled(adj, ns, start, dist', visited + {u})
  {
    forall x | x in visited + {u}
      ensures x in dist' && dist'[x].Fin? && NoShorter(adj, ns, start, x, dist'[x].value)
    {
      assert dist'[x] == dist[x];
    }
  }

  /** The full chain of `prev` links back from `x`, ignoring the truthiness test. */
  ghost function Chain(prev: PrevTable, rank: map<NodeId, nat>, x: NodeId): seq<NodeId>
    requires Acyclic(prev, rank)
    decreases (if x in rank then 1 else 2), (if x in rank then rank[x] else 0)
  {
    match PrevOf(prev, x)
    case None => [x]
    case Some(q) => Chain(prev, rank, q) + [x]
  }

  /** One link more: the walk back from `q` extended by the entry from `q` to `x`. */
  lemma LinkStep(adj: AdjList, ns: set<NodeId>, start: NodeId, dist: DistTable, prev: PrevTable,
                 visited: set<NodeId>, rank: map<NodeId, nat>, x: NodeId, q: NodeId, ws': seq<nat>)
    returns (ws: seq<nat>)
    requires Acyclic(prev, rank) && PrevLinks(adj, dist, prev, visited)
    requires x in ns && PrevOf(prev, x) == Some(q)
    requires WalkIn(adj, ns, Chain(prev, rank, q), ws') && Connects(Chain(prev, rank, q), start, q)
    requires Sum(ws') == dist[q].value
    ensures WalkIn(adj, ns, Chain(prev, rank, x), ws) && Connects(Chain(prev, rank, x), start, x)
    ensures Sum(ws) == dist[x].value
  {
    var p' := Chain(prev, rank, q);
    var w := dist[x].value - dist[q].value;
    assert Entry(x, w) in Neighbors(adj, p'[|p'| - 1]);
    WalkExtend(adj, ns, p', ws', x, w);
    ws := ws' + [w];
  }

  /**
    Following `prev` back from a reached node gives a walk from `start`
    inside `ns` whose weight is that node's distance.
   */
  lemma {:induction false} LinksWalk(adj: AdjList, ns: set<NodeId>, start: NodeId, dist: DistTable, prev: PrevTable,
                                    visited: set<NodeId>, rank: map<NodeId, nat>, x: NodeId)
    returns (ws: seq<nat>)
    requires visited <= ns && Rooted(start, dist, prev)
    requires Acyclic(prev, rank) && PrevLinks(adj, dist, prev, visited)
    requires x in ns && x in dist && dist[x].Fin?
    ensures WalkIn(adj, ns, Chain(prev, rank, x), ws) && Connects(Chain(prev, rank, x), start, x)
    ensures Sum(ws) == dist[x].value
    decreases (if x in rank then 1 else 2), (if x in rank then rank[x] else 0)
  {
    match PrevOf(prev, x)
    case None =>
      ws := [];
    case Some(q) =>
      assert q in visited;
      var ws' := LinksWalk(adj, ns, start, dist, prev, visited, rank, q);
      ws := LinkStep(adj, ns, start, dist, prev, visited, rank, x, q, ws');
  }

  /** When no node id is the empty string, the reconstruction loop follows the whole chain. */
  lemma {:induction false} ChainIsTrace(adj: AdjList, ns: set<NodeId>, dist: DistTable, prev: PrevTable,
                                       visited: set<NodeId>, rank: map<NodeId, nat>, x: NodeId)
    requires visited <= ns && "" !in ns && x in ns
    requires Acyclic(prev, rank) && PrevLinks(adj, dist, prev, visited)
    ensures Trace(prev, rank, Some(x)) == Chain(prev, rank, x)
    decreases (if x in rank then 1 else 2), (if x in rank then rank[x] else 0)
  {
    match PrevOf(prev, x)
    case None =>
      assert Trace(prev, rank, Some(x)) == Trace(prev, rank, None) + [x];
    case Some(q) =>
      assert q in visited;
      ChainIsTrace(adj, ns, dist, prev, visited, rank, q);
      assert Trace(prev, rank, Some(x)) == Trace(prev, rank, Some(q)) + [x];
  }

  /** The invariant of the search loop (see `Graph.Search`). */
  ghost predicate Invariant(adj: AdjList, ns: set<NodeId>, start: NodeId, end: NodeId,
                            dist: DistTable, prev: PrevTable, visited: set<NodeId>, rank: map<NodeId, nat>, steps: nat)
  {
    && dist.Keys == ns + {start} && Rooted(start, dist, prev)
    && visited <= ns && end !in visited
    && rank.Keys == visited && (forall x :: x in rank ==> rank[x] < steps)
    && Acyclic(prev, rank) && PrevLinks(adj, dist, prev, visited)
    && Relaxed(adj, dist, visited) && Settled(adj, ns, start, dist, visited)
  }

  /** The tables as initialised satisfy the invariant, with nothing visited yet. */
  lemma InitInvariant(adj: AdjList, ns: set<NodeId>, start: NodeId, end: NodeId, dist: DistTable, prev: PrevTable)
    requires dist.Keys == ns + {start} && prev.Keys == ns
    requires dist[start] == Fin(0) && forall n :: n in dist && n != start ==> dist[n] == Infinity
    requires forall n :: n in prev ==> prev[n] == None
    ensures Invariant(adj, ns, start, end, dist, prev, {}, map[], 0)
  {
  }

  /** The bookkeeping part of the invariant: keys of the tables, the visited set and the ranks. */
  lemma StepKeepsBookkeeping(ns: set<NodeId>, start: NodeId, end: NodeId, u: NodeId, dist: DistTable, dist': DistTable,
                             visited: set<NodeId>, rank: map<NodeId, nat>, steps: nat, rank': map<NodeId, nat>)
    requires dist.Keys == ns + {start} && dist'.Keys == dist.Keys
    requires visited <= ns && end !in visited && u in ns && u != end
    requires rank.Keys == visited && (forall x :: x in rank ==> rank[x] < steps) && rank' == rank[u := steps]
    ensures dist'.Keys == ns + {start}
    ensures visited + {u} <= ns && end !in visited + {u}
    ensures rank'.Keys == visited + {u} && (forall x :: x in rank' ==> rank'[x] < steps + 1)
  {
  }

  /** Visiting the picked node `u` and relaxing its entries keeps the invariant. */
  lemma StepKeepsInvariant(adj: AdjList, ns: set<NodeId>, start: NodeId, end: NodeId, u: NodeId,
                           dist: DistTable, prev: PrevTable, visited: set<NodeId>, rank: map<NodeId, nat>, steps: nat,
                           dist': DistTable, prev': PrevTable, rank': map<NodeId, nat>)
    requires Invariant(adj, ns, start, end, dist, prev, visited, rank, steps) && rank' == rank[u := steps]
    requires u in ns && u !in visited && u != end && dist[u].Fin? && NoShorter(adj, ns, start, u, dist[u].value)
    requires OnlyLowers(dist, dist') && KeepsVisited(dist, dist', visited + {u})
    requires PrevTracks(u, dist, dist', prev, prev')
    requires EdgesRelaxed(adj, u, visited + {u}, dist, dist') && ImprovedByEdge(adj, u, dist, dist')
    ensures dist'.Keys == ns + {start} && Rooted(start, dist', prev')
    ensures visited + {u} <= ns && end !in visited + {u}
    ensures rank'.Keys == visited + {u} && (forall x :: x in rank' ==> rank'[x] < steps + 1)
    ensures Acyclic(prev', rank') && PrevLinks(adj, dist', prev', visited + {u})
    ensures Relaxed(adj, dist', visited + {u}) && Settled(adj, ns, start, dist', visited + {u})
  {
    StepKeepsBookkeeping(ns, start, end, u, dist, dist', visited, rank, steps, rank');
    StepKeepsRooted(start, u, dist, prev, dist', prev');
    StepKeepsAcyclic(u, dist, prev, visited, rank, steps, dist', prev');
    StepKeepsPrevLinks(adj, u, dist, prev, visited, dist', prev');
    StepKeepsRelaxed(adj, u, dist, visited, dist');
    StepKeepsSettled(adj, ns, start, u, dist, visited, dist');
  }

  /** Lowering one unvisited neighbour through entry `e` of `u` keeps the facts that one relaxation pass promises. */
  lemma ImproveKeeps(adj: AdjList, u: NodeId, visited: set<NodeId>, dist: DistTable, prev: PrevTable,
                     d: DistTable, p: PrevTable, e: Entry)
    requires u in visited && u in dist && dist[u].Fin?
    requires OnlyLowers(dist, d) && KeepsVisited(dist, d, visited) && PrevTracks(u, dist, d, prev, p)
    requires ImprovedByEdge(adj, u, dist, d)
    requires e in Neighbors(adj, u) && e.node !in visited && e.node in d
    requires Less(Fin(dist[u].value + e.weight), d[e.node])
    ensures var d', p' := d[e.node := Fin(dist[u].value + e.weight)], p[e.node := Some(u)];
      && OnlyLowers(dist, d') && KeepsVisited(dist, d', visited) && PrevTracks(u, dist, d', prev, p')
      && ImprovedByEdge(adj, u, dist, d')
  {
    var d', p' := d[e.node := Fin(dist[u].value + e.weight)], p[e.node := Some(u)];
    AtMostTrans(d'[e.node], d[e.node], dist[e.node]);
    forall n ensures PrevOf(p', n) == if n in dist && n in d' && Less(d'[n], dist[n]) then Some(u) else PrevOf(prev, n) {
      if n == e.node {
        assert Less(d'[n], dist[n]);
      }
    }
  }

  // ---------------------------------------------------------------------
  // The class
  // ---------------------------------------------------------------------

  /** A subset is no larger than its superset: at most one iteration per node id. */
  lemma {:induction false} SubsetSize(a: set<NodeId>, b: set<NodeId>)
    requires a <= b
    ensures |a| <= |b|
    decreases a
  {
    if a != {} {
      var x :| x in a;
      SubsetSize(a - {x}, b - {x});
    }
  }

  class Graph {
    var nodes: seq<NodeId>
    var adjList: AdjList

    ghost function NodeSet(): set<NodeId>
      reads this
    {
      set n | n in nodes
    }

    /** Every given id gets an empty neighbour list. */
    constructor (nodes: seq<NodeId>)
      ensures this.nodes == nodes
      ensures adjList.Keys == set n | n in nodes
      ensures forall n :: n in adjList ==> adjList[n] == []
    {
      this.nodes := nodes;
      adjList := map[];
      new;
      for i := 0 to |nodes|
        invariant this.nodes == nodes
        invariant adjList.Keys == set n | n in nodes[..i]
        invariant forall n :: n in adjList ==> adjList[n] == []
      {
        adjList := adjList[nodes[i] := []];
      }
      assert nodes[..|nodes|] == nodes;
    }

    /**
      Appends one entry `{to, weight}` to the end of `from`'s list, creating
      that list first if `from` has none; every other list stays as it was.
     */
    method AddEdge(from: NodeId, to: NodeId, weight: nat)
      modifies this
      ensures nodes == old(nodes)
      ensures adjList == old(adjList)[from := Neighbors(old(adjList), from) + [Entry(to, weight)]]
    {
      if from !in adjList {
        adjList := adjList[from := []];
      }
      adjList := adjList[from := adjList[from] + [Entry(to, weight)]];
    }

    /** The scan for the next node to visit: the first unvisited node with the strictly smallest finite distance. */
    method SelectMin(dist: DistTable, visited: set<NodeId>) returns (current: Option<NodeId>, ghost at: nat)
      requires forall n :: n in nodes ==> n in dist
      ensures current.None? <==> forall n :: n in nodes && n !in visited ==> dist[n] == Infinity
      ensures current.Some? ==> at < |nodes| && nodes[at] == current.value && FirstMin(nodes, visited, dist, at)
    {
      var minDist := Infinity;
      current, at := None, 0;
      for i := 0 to |nodes|
        invariant current.Some? ==> at < i && nodes[at] == current.value && nodes[at] !in visited
        invariant minDist == if current.None? then Infinity else dist[current.value]
        invariant current.Some? ==> minDist.Fin?
        invariant current.None? ==> forall n :: n in nodes[..i] && n !in visited ==> dist[n] == Infinity
        invariant current.Some? ==> forall n :: n in nodes[..i] && n !in visited ==> AtMost(minDist, dist[n])
        invariant current.Some? ==> forall k :: 0 <= k < at && nodes[k] !in visited ==> Less(minDist, dist[nodes[k]])
      {
        var n := nodes[i];
        if n !in visited && Less(dist[n], minDist) {
          minDist := dist[n];
          current := Some(n);
          at := i;
        }
      }
      assert nodes[..|nodes|] == nodes;
    }

    /** Relaxes every entry of `current`'s list whose target is not visited yet. */
    method Relax(current: NodeId, dist: DistTable, prev: PrevTable, visited: set<NodeId>)
      returns (dist': DistTable, prev': PrevTable)
      requires current in visited && current in dist && dist[current].Fin?
      ensures OnlyLowers(dist, dist')
      ensures KeepsVisited(dist, dist', visited)
      ensures PrevTracks(current, dist, dist', prev, prev')
      ensures EdgesRelaxed(adjList, current, visited, dist, dist')
      ensures ImprovedByEdge(adjList, current, dist, dist')
    {
      var es := Neighbors(adjList, current);
      dist', prev' := dist, prev;
      for i := 0 to |es|
        invariant OnlyLowers(dist, dist')
        invariant KeepsVisited(dist, dist', visited)
        invariant PrevTracks(current, dist, dist', prev, prev')
        invariant forall k :: 0 <= k < i && es[k].node in dist && es[k].node !in visited ==>
                    AtMost(dist'[es[k].node], Fin(dist[current].value + es[k].weight))
        invariant ImprovedByEdge(adjList, current, dist, dist')
      {
        var e := es[i];
        if e.node !in visited {
          var alt := dist'[current].value + e.weight;
          if e.node in dist' && Less(Fin(alt), dist'[e.node]) {
            ghost var (d0, p0) := (dist', prev');
            dist' := dist'[e.node := Fin(alt)];
            prev' := prev'[e.node := Some(current)];
            ImproveKeeps(adjList, current, visited, dist, prev, d0, p0, e);
            forall k | 0 <= k < i && es[k].node in dist && es[k].node !in visited
              ensures AtMost(dist'[es[k].node], Fin(dist[current].value + es[k].weight))
            {
              if es[k].node == e.node {
                AtMostTrans(dist'[e.node], d0[e.node], Fin(dist[current].value + es[k].weight));
              }
            }
          }
        }
      }
    }

    /** The invariant of the search loop, over this graph's node set and adjacency map. */
    ghost predicate SearchInv(start: NodeId, end: NodeId, dist: DistTable, prev: PrevTable, visited: set<NodeId>,
                              rank: map<NodeId, nat>, steps: nat)
      reads this
    {
      Invariant(adjList, NodeSet(), start, end, dist, prev, visited, rank, steps)
    }

    /** The initialisation of `distances` and `prev`: every node unreached and without predecessor, then `start` at 0. */
    method InitTables(start: NodeId) returns (dist: DistTable, prev: PrevTable)
      ensures dist.Keys == NodeSet() + {start} && prev.Keys == NodeSet()
      ensures dist[start] == Fin(0)
      ensures forall n :: n in dist && n != start ==> dist[n] == Infinity
      ensures forall n :: n in prev ==> prev[n] == None
    {
      dist, prev := map[], map[];
      for i := 0 to |nodes|
        invariant dist.Keys == (set n | n in nodes[..i]) && prev.Keys == dist.Keys
        invariant forall n :: n in dist ==> dist[n] == Infinity && prev[n] == None
      {
        dist := dist[nodes[i] := Infinity];
        prev := prev[nodes[i] := None];
      }
      assert nodes[..|nodes|] == nodes;
      dist := dist[start := Fin(0)];
    }

    /** One pass of the loop body after the pick: mark `u` visited and relax its entries. */
    method Visit(start: NodeId, end: NodeId, u: NodeId, dist: DistTable, prev: PrevTable, visited: set<NodeId>,
                 ghost rank: map<NodeId, nat>, ghost steps: nat)
      returns (dist': DistTable, prev': PrevTable, visited': set<NodeId>, ghost rank': map<NodeId, nat>)
      requires SearchInv(start, end, dist, prev, visited, rank, steps)
      requires u in NodeSet() && u !in visited && u != end
      requires dist[u].Fin? && NoShorter(adjList, NodeSet(), start, u, dist[u].value)
      ensures SearchInv(start, end, dist', prev', visited', rank', steps + 1)
      ensures visited' == visited + {u} && |visited'| == |visited| + 1
    {
      visited' := visited + {u};
      rank' := rank[u := steps];
      dist', prev' := Relax(u, dist, prev, visited');
      StepKeepsInvariant(adjList, NodeSet(), start, end, u, dist, prev, visited, rank, steps, dist', prev', rank');
    }

    /**
      The top of the loop body: the scan, and the fact that makes
      Dijkstra's algorithm work, that the node it picks already has its
      shortest distance.
     */
    method Pick(start: NodeId, end: NodeId, dist: DistTable, prev: PrevTable, visited: set<NodeId>,
                ghost rank: map<NodeId, nat>, ghost steps: nat)
      returns (current: Option<NodeId>)
      requires SearchInv(start, end, dist, prev, visited, rank, steps)
      ensures current.None? ==> forall n :: n in nodes && n !in visited ==> dist[n] == Infinity
      ensures current.Some? ==> && current.value in NodeSet() && current.value !in visited
                                && dist[current.value].Fin?
                                && NoShorter(adjList, NodeSet(), start, current.value, dist[current.value].value)
    {
      ghost var at;
      current, at := SelectMin(dist, visited);
      if current.Some? {
        PickIsShortest(adjList, nodes, NodeSet(), start, dist, visited, at);
      }
    }

    /**
      The search loop of `shortestPath` (its `while (true)`): initialise the tables,
      then repeatedly visit the closest unvisited node and relax its entries,
      until `end` is picked or no unvisited node has a finite distance. Each
      iteration that does not stop visits a new node, so there are at most as
      many iterations as distinct node ids. On exit every visited node is
      settled at its shortest distance, and either nothing unvisited is
      reached or `end` is reached at its shortest distance.
     */
    method Search(start: NodeId, end: NodeId)
      returns (dist: DistTable, prev: PrevTable, visited: set<NodeId>, ghost rank: map<NodeId, nat>, ghost steps: nat)
      ensures SearchInv(start, end, dist, prev, visited, rank, steps)
      ensures || (forall n :: n in nodes && n !in visited ==> dist[n] == Infinity)
              || (end in NodeSet() && dist[end].Fin? && NoShorter(adjList, NodeSet(), start, end, dist[end].value))
      ensures steps == |visited| <= |NodeSet()|
    {
      dist, prev := InitTables(start);
      InitInvariant(adjList, NodeSet(), start, end, dist, prev);
      visited, rank, steps := {}, map[], 0;
      while true
        invariant SearchInv(start, end, dist, prev, visited, rank, steps)
        invariant steps == |visited|
        decreases NodeSet() - visited
      {
        var current := Pick(start, end, dist, prev, visited, rank, steps);
        if current.None? || current.value == end {
          break;
        }
        dist, prev, visited, rank := Visit(start, end, current.value, dist, prev, visited, rank, steps);
        steps := steps + 1;
      }
      SubsetSize(visited, NodeSet());
    }

    /**
      `shortestPath(start, end)`. Distances are over walks whose nodes are all
      in `nodes`: ids outside it never get a distance, so the search never
      passes through them.
     */
    method ShortestPath(start: NodeId, end: NodeId) returns (r: PathResult)
      ensures r.NoPath? <==> end in NodeSet() && !Reachable(adjList, NodeSet(), start, end)
      ensures r.UnknownEnd? <==> end !in NodeSet() && end != start
      ensures r.UnknownEnd? ==> r.path == if end == "" then [] else [end]
      ensures start == end ==> r == Found(if start == "" then [] else [start], 0)
      ensures !r.NoPath? && end != "" ==> |r.path| > 0 && r.path[|r.path| - 1] == end
      ensures r.Found? && end in NodeSet() ==> Shortest(adjList, NodeSet(), start, end, r.distance)
      ensures r.Found? && end in NodeSet() && "" !in NodeSet() ==>
                && Connects(r.path, start, end)
                && exists ws :: WalkIn(adjList, NodeSet(), r.path, ws) && Sum(ws) == r.distance
    {
      ghost var ns := NodeSet();
      var dist, prev, visited, rank, steps := Search(start, end);
      assert Rooted(start, dist, prev) && PrevLinks(adjList, dist, prev, visited);
      if end in dist && dist[end] == Infinity {
        if Reachable(adjList, ns, start, end) {
          var p, ws :| WalkIn(adjList, ns, p, ws) && Connects(p, start, end);
          var z := Frontier(adjList, ns, start, dist, visited, p, ws);
        }
        return NoPath;
      }
      var path := Walkback(prev, end, rank);
      if end != "" {
        assert path == Trace(prev, rank, PrevOf(prev, end)) + [end];
      }
      if end in ns {
        var ws := LinksWalk(adjList, ns, start, dist, prev, visited, rank, end);
        if "" !in ns {
          ChainIsTrace(adjList, ns, dist, prev, visited, rank, end);
        }
      }
      if end in dist {
        r := Found(path, dist[end].value);
      } else {
        r := UnknownEnd(path);
      }
    }
  }
}
