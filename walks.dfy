/**
  Weighted walks over an adjacency map: the notion of "path" that the route
  query answers about. A walk is a node sequence together with the weight of
  the adjacency entry taken at each step (parallel roads may give the same
  pair of nodes several weights, so the weights are part of the walk).
 */
module Walks {

  type NodeId = string

  /** One adjacency entry, `{ node, weight }` in the graph's lists. */
  datatype Entry = Entry(node: NodeId, weight: nat)

  type AdjList = map<NodeId, seq<Entry>>

  /** The list the graph consults for `u`: its adjacency list, or none at all. */
  function Neighbors(adj: AdjList, u: NodeId): (es: seq<Entry>)
    ensures u !in adj ==> es == []
  {
    if u in adj then adj[u] else []
  }

  /** Total weight, summed from the back so that extending a walk adds its last step. */
  function Sum(ws: seq<nat>): nat {
    if ws == [] then 0 else Sum(ws[..|ws| - 1]) + ws[|ws| - 1]
  }

  /** `p` with step weights `ws` follows adjacency entries from `p[0]` to its last node. */
  ghost predicate IsWalk(adj: AdjList, p: seq<NodeId>, ws: seq<nat>) {
    && |p| == |ws| + 1
    && forall i :: 0 <= i < |ws| ==> Entry(p[i + 1], ws[i]) in Neighbors(adj, p[i])
  }

  ghost predicate Within(ns: set<NodeId>, p: seq<NodeId>) {
    forall i :: 0 <= i < |p| ==> p[i] in ns
  }

  /** A walk all of whose nodes are in the node set `ns`. */
  ghost predicate WalkIn(adj: AdjList, ns: set<NodeId>, p: seq<NodeId>, ws: seq<nat>) {
    IsWalk(adj, p, ws) && Within(ns, p)
  }

  ghost predicate Connects(p: seq<NodeId>, s: NodeId, t: NodeId) {
    |p| > 0 && p[0] == s && p[|p| - 1] == t
  }

  ghost predicate Reachable(adj: AdjList, ns: set<NodeId>, s: NodeId, t: NodeId) {
    exists p, ws :: WalkIn(adj, ns, p, ws) && Connects(p, s, t)
  }

  /** No walk inside `ns` from `s` to `t` weighs less than `k`. */
  ghost predicate NoShorter(adj: AdjList, ns: set<NodeId>, s: NodeId, t: NodeId, k: nat) {
    forall p, ws :: WalkIn(adj, ns, p, ws) && Connects(p, s, t) ==> k <= Sum(ws)
  }

  /** `k` is the shortest-path distance from `s` to `t` inside `ns`. */
  ghost predicate Shortest(adj: AdjList, ns: set<NodeId>, s: NodeId, t: NodeId, k: nat) {
    && (exists p, ws :: WalkIn(adj, ns, p, ws) && Connects(p, s, t) && Sum(ws) == k)
    && NoShorter(adj, ns, s, t, k)
  }

  /** Every entry has its mirror image: an undirected road network. */
  ghost predicate Symmetric(adj: AdjList) {
    forall u, v, w :: Entry(v, w) in Neighbors(adj, u) ==> Entry(u, w) in Neighbors(adj, v)
  }

  function Reversed<T>(s: seq<T>): (r: seq<T>)
    ensures |r| == |s|
    ensures forall i :: 0 <= i < |s| ==> r[i] == s[|s| - 1 - i]
  {
    seq(|s|, i requires 0 <= i < |s| => s[|s| - 1 - i])
  }

  lemma {:induction false} SumAppend(a: seq<nat>, b: seq<nat>)
    ensures Sum(a + b) == Sum(a) + Sum(b)
    decreases |b|
  {
    if b == [] {
      assert a + b == a;
    } else {
      var b' := b[..|b| - 1];
      assert (a + b)[..|a + b| - 1] == a + b';
      SumAppend(a, b');
    }
  }

  /** A walk whose every step weighs at least `m` weighs at least `m` per step. */
  lemma {:induction false} SumAtLeast(ws: seq<nat>, m: nat)
    requires forall i :: 0 <= i < |ws| ==> m <= ws[i]
    ensures m * |ws| <= Sum(ws)
    decreases |ws|
  {
    if ws != [] {
      var n := |ws| - 1;
      SumAtLeast(ws[..n], m);
      assert m * |ws| == m * n + m;
    }
  }

  lemma {:induction false} SumReversed(ws: seq<nat>)
    ensures Sum(Reversed(ws)) == Sum(ws)
    decreases |ws|
  {
    if ws != [] {
      var n := |ws| - 1;
      assert Reversed(ws) == [ws[n]] + Reversed(ws[..n]);
      SumAppend([ws[n]], Reversed(ws[..n]));
      assert Sum([ws[n]]) == ws[n] by { assert [ws[n]][..0] == []; }
      SumReversed(ws[..n]);
    }
  }

  /** Cutting a walk after its `j`-th node leaves a walk. */
  lemma WalkPrefix(adj: AdjList, ns: set<NodeId>, p: seq<NodeId>, ws: seq<nat>, j: nat)
    requires WalkIn(adj, ns, p, ws) && 0 < j <= |p|
    ensures WalkIn(adj, ns, p[..j], ws[..j - 1])
  {
  }

  /** A walk extended by one entry out of its last node is a walk, one step heavier. */
  lemma WalkExtend(adj: AdjList, ns: set<NodeId>, p: seq<NodeId>, ws: seq<nat>, x: NodeId, w: nat)
    requires WalkIn(adj, ns, p, ws) && x in ns && Entry(x, w) in Neighbors(adj, p[|p| - 1])
    ensures WalkIn(adj, ns, p + [x], ws + [w])
    ensures Sum(ws + [w]) == Sum(ws) + w
  {
    var r, rs := p + [x], ws + [w];
    forall i | 0 <= i < |rs|
      ensures Entry(r[i + 1], rs[i]) in Neighbors(adj, r[i])
    {
      if i < |ws| {
        assert r[i] == p[i] && r[i + 1] == p[i + 1] && rs[i] == ws[i];
      }
    }
    assert rs[..|rs| - 1] == ws;
  }

  /** Two walks that meet join into one whose weight is the sum of theirs. */
  lemma WalkConcat(adj: AdjList, ns: set<NodeId>, p: seq<NodeId>, ws: seq<nat>, q: seq<NodeId>, vs: seq<nat>)
    requires WalkIn(adj, ns, p, ws) && WalkIn(adj, ns, q, vs) && p[|p| - 1] == q[0]
    ensures WalkIn(adj, ns, p + q[1..], ws + vs)
    ensures Sum(ws + vs) == Sum(ws) + Sum(vs)
  {
    var r, rs := p + q[1..], ws + vs;
    forall i | 0 <= i < |rs|
      ensures Entry(r[i + 1], rs[i]) in Neighbors(adj, r[i])
    {
      if i >= |ws| {
        var k := i - |ws|;
        assert r[i] == q[k] && r[i + 1] == q[k + 1] && rs[i] == vs[k];
      }
    }
    SumAppend(ws, vs);
  }

  /** Step `i` of the reversed walk is step `|ws| - 1 - i` of the walk, travelled the other way. */
  lemma ReverseStep(adj: AdjList, p: seq<NodeId>, ws: seq<nat>, i: nat)
    requires |p| == |ws| + 1 && i < |ws|
    requires Entry(p[|ws| - 1 - i], ws[|ws| - 1 - i]) in Neighbors(adj, p[|ws| - i])
    ensures Entry(Reversed(p)[i + 1], Reversed(ws)[i]) in Neighbors(adj, Reversed(p)[i])
  {
    var k := |ws| - 1 - i;
    assert Reversed(p)[i] == p[k + 1] && Reversed(p)[i + 1] == p[k] && Reversed(ws)[i] == ws[k];
  }

  /** Over a symmetric adjacency map the steps of a walk, taken backwards, are entries too. */
  lemma ReverseSteps(adj: AdjList, p: seq<NodeId>, ws: seq<nat>)
    requires Symmetric(adj) && IsWalk(adj, p, ws)
    ensures IsWalk(adj, Reversed(p), Reversed(ws))
  {
    forall i | 0 <= i < |ws|
      ensures Entry(Reversed(p)[i + 1], Reversed(ws)[i]) in Neighbors(adj, Reversed(p)[i])
    {
      var k := |ws| - 1 - i;
      assert Entry(p[k + 1], ws[k]) in Neighbors(adj, p[k]);
      ReverseStep(adj, p, ws, i);
    }
  }

  /** In a symmetric adjacency map every walk can be travelled backwards at the same cost. */
  lemma ReverseWalk(adj: AdjList, ns: set<NodeId>, p: seq<NodeId>, ws: seq<nat>)
    requires Symmetric(adj) && WalkIn(adj, ns, p, ws)
    ensures WalkIn(adj, ns, Reversed(p), Reversed(ws))
    ensures Sum(Reversed(ws)) == Sum(ws)
  {
    ReverseSteps(adj, p, ws);
    SumReversed(ws);
  }

  /**
    A feasible potential bounds every walk from below: if no entry lets `h`
    grow by more than its weight, no walk lets it grow by more than its
    total weight.
   */
  lemma {:induction false} PotentialBound(adj: AdjList, h: NodeId -> int, p: seq<NodeId>, ws: seq<nat>)
    requires forall u, v, w :: Entry(v, w) in Neighbors(adj, u) ==> h(v) <= h(u) + w
    requires IsWalk(adj, p, ws)
    ensures h(p[|p| - 1]) <= h(p[0]) + Sum(ws)
    decreases |ws|
  {
    if ws != [] {
      var n := |ws|;
      assert IsWalk(adj, p[..n], ws[..n - 1]);
      PotentialBound(adj, h, p[..n], ws[..n - 1]);
      assert Entry(p[n], ws[n - 1]) in Neighbors(adj, p[n - 1]);
    }
  }

  /** A walk that a feasible potential rises along by exactly its weight is a shortest one. */
  lemma PotentialCertifies(adj: AdjList, ns: set<NodeId>, h: NodeId -> int, s: NodeId, t: NodeId, p: seq<NodeId>, ws: seq<nat>, k: nat)
    requires forall u, v, w :: Entry(v, w) in Neighbors(adj, u) ==> h(v) <= h(u) + w
    requires WalkIn(adj, ns, p, ws) && Connects(p, s, t) && Sum(ws) == k && h(t) == h(s) + k
    ensures Shortest(adj, ns, s, t, k)
  {
    forall q, vs | WalkIn(adj, ns, q, vs) && Connects(q, s, t)
      ensures k <= Sum(vs)
    {
      PotentialBound(adj, h, q, vs);
    }
  }

  /** Triangle inequality of shortest distances. */
  lemma Triangle(adj: AdjList, ns: set<NodeId>, a: NodeId, b: NodeId, c: NodeId, ab: nat, bc: nat, ac: nat)
    requires Shortest(adj, ns, a, b, ab) && Shortest(adj, ns, b, c, bc)
    requires NoShorter(adj, ns, a, c, ac)
    ensures ac <= ab + bc
  {
    var p, ws :| WalkIn(adj, ns, p, ws) && Connects(p, a, b) && Sum(ws) == ab;
    var q, vs :| WalkIn(adj, ns, q, vs) && Connects(q, b, c) && Sum(vs) == bc;
    WalkConcat(adj, ns, p, ws, q, vs);
    assert Connects(p + q[1..], a, c);
  }

  /** Over a symmetric adjacency map a lower bound on walks one way bounds the walks back. */
  lemma NoShorterSymmetric(adj: AdjList, ns: set<NodeId>, a: NodeId, b: NodeId, k: nat)
    requires Symmetric(adj) && NoShorter(adj, ns, a, b, k)
    ensures NoShorter(adj, ns, b, a, k)
  {
    forall q, vs | WalkIn(adj, ns, q, vs) && Connects(q, b, a)
      ensures k <= Sum(vs)
    {
      ReverseWalk(adj, ns, q, vs);
      assert Connects(Reversed(q), a, b);
    }
  }

  /** Over a symmetric adjacency map the shortest distance does not depend on the direction. */
  lemma ShortestSymmetric(adj: AdjList, ns: set<NodeId>, a: NodeId, b: NodeId, k: nat)
    requires Symmetric(adj) && Shortest(adj, ns, a, b, k)
    ensures Shortest(adj, ns, b, a, k)
  {
    var p, ws :| WalkIn(adj, ns, p, ws) && Connects(p, a, b) && Sum(ws) == k;
    ReverseWalk(adj, ns, p, ws);
    assert Connects(Reversed(p), b, a);
    NoShorterSymmetric(adj, ns, a, b, k);
  }

  /** The shortest distance between two nodes is unique. */
  lemma ShortestUnique(adj: AdjList, ns: set<NodeId>, s: NodeId, t: NodeId, a: nat, b: nat)
    requires Shortest(adj, ns, s, t, a) && Shortest(adj, ns, s, t, b)
    ensures a == b
  {
    var p, ws :| WalkIn(adj, ns, p, ws) && Connects(p, s, t) && Sum(ws) == a;
    var q, vs :| WalkIn(adj, ns, q, vs) && Connects(q, s, t) && Sum(vs) == b;
  }
}
