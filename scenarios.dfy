/**
  Worked examples on a three-intersection network: roads 1-2 (weight 2),
  2-3 (weight 3) and 1-3 (weight 10).
 */
module Scenarios {

  import opened Wrappers
  import opened Walks
  import opened Editor
  import opened Route

  const Crossings: seq<Node> := [NewNode("1", 0.0, 0.0), NewNode("2", 0.0, 1.0), NewNode("3", 1.0, 1.0)]
  const Roads: seq<Edge> := [Edge("1", "2", 2), Edge("2", "3", 3), Edge("1", "3", 10)]

  lemma CrossingIds()
    ensures Ids(Crossings) == ["1", "2", "3"]
    ensures IdSet(Crossings) == {"1", "2", "3"}
    ensures HasId(Crossings, "3") && !HasId(Crossings, "")
  {
    var ids := Ids(Crossings);
    assert ids[0] == "1" && ids[1] == "2" && ids[2] == "3";
    assert ids == ["1", "2", "3"];
    assert Crossings[2].id == "3";
    forall i | 0 <= i < |Crossings|
      ensures Crossings[i].id != ""
    {
      assert ids[i] == Crossings[i].id;
    }
  }

  /** Distances from intersection 1 before any removal. */
  function FromOne(n: NodeId): int {
    if n == "2" then 2 else if n == "3" then 5 else 0
  }

  lemma FromOneFeasible()
    ensures forall u, v, w :: Entry(v, w) in Neighbors(Snapshot(["1", "2", "3"], Roads), u) ==> FromOne(v) <= FromOne(u) + w
  {
    forall u: NodeId, v: NodeId, w: nat | Entry(v, w) in Neighbors(Snapshot(["1", "2", "3"], Roads), u)
      ensures FromOne(v) <= FromOne(u) + w
    {
      SnapshotEntries(["1", "2", "3"], Roads, u, v, w);
    }
  }

  /** The built graph has the entries 1 → 2 (weight 2) and 2 → 3 (weight 3). */
  lemma MiddleEntries()
    ensures Entry("2", 2) in Neighbors(Snapshot(["1", "2", "3"], Roads), "1")
    ensures Entry("3", 3) in Neighbors(Snapshot(["1", "2", "3"], Roads), "2")
  {
    SnapshotEntries(["1", "2", "3"], Roads, "1", "2", 2);
    assert Carries(Roads[0], "1", "2", 2);
    SnapshotEntries(["1", "2", "3"], Roads, "2", "3", 3);
    assert Carries(Roads[1], "2", "3", 3);
  }

  /** In any map with those two entries over which 0, 2, 5 is feasible, the walk 1, 2, 3 is shortest. */
  lemma ThroughTheMiddle(adj: AdjList)
    requires Entry("2", 2) in Neighbors(adj, "1") && Entry("3", 3) in Neighbors(adj, "2")
    requires forall u, v, w :: Entry(v, w) in Neighbors(adj, u) ==> FromOne(v) <= FromOne(u) + w
    ensures Shortest(adj, {"1", "2", "3"}, "1", "3", 5)
  {
    var p, ws := ["1", "2", "3"], [2, 3];
    assert WalkIn(adj, {"1", "2", "3"}, p, ws);
    assert Sum(ws) == 5 by {
      assert ws[..1] == [2] && [2][..0] == [];
    }
    PotentialCertifies(adj, {"1", "2", "3"}, FromOne, "1", "3", p, ws, 5);
  }

  /** The shortest distance from 1 to 3 is 5, not the 10 of the direct road. */
  lemma ThreeCrossingsDistance()
    ensures Shortest(Snapshot(Ids(Crossings), Roads), IdSet(Crossings), "1", "3", 5)
  {
    CrossingIds();
    MiddleEntries();
    FromOneFeasible();
    ThroughTheMiddle(Snapshot(["1", "2", "3"], Roads));
  }

  /** The six entries the three roads put into the graph, one per direction. */
  predicate RoadEntry(u: NodeId, v: NodeId, w: nat) {
    || (w == 2 && ((u == "1" && v == "2") || (u == "2" && v == "1")))
    || (w == 3 && ((u == "2" && v == "3") || (u == "3" && v == "2")))
    || (w == 10 && ((u == "1" && v == "3") || (u == "3" && v == "1")))
  }

  lemma RoadEntries()
    ensures forall u, v, w :: Entry(v, w) in Neighbors(Snapshot(["1", "2", "3"], Roads), u) ==> RoadEntry(u, v, w)
  {
    forall u: NodeId, v: NodeId, w: nat | Entry(v, w) in Neighbors(Snapshot(["1", "2", "3"], Roads), u)
      ensures RoadEntry(u, v, w)
    {
      SnapshotEntries(["1", "2", "3"], Roads, u, v, w);
    }
  }

  lemma ShortSums(ws: seq<nat>)
    ensures |ws| == 1 ==> Sum(ws) == ws[0]
    ensures |ws| == 2 ==> Sum(ws) == ws[0] + ws[1]
  {
    if |ws| == 1 {
      assert ws[..0] == [];
    } else if |ws| == 2 {
      assert ws[..1][..0] == [];
    }
  }

  /** Over those entries, the only walk from 1 to 3 inside the three intersections that weighs 5 is 1, 2, 3. */
  lemma OnlyWalkOfFive(adj: AdjList, p: seq<NodeId>, ws: seq<nat>)
    requires forall u, v, w :: Entry(v, w) in Neighbors(adj, u) ==> RoadEntry(u, v, w)
    requires WalkIn(adj, {"1", "2", "3"}, p, ws) && Connects(p, "1", "3") && Sum(ws) == 5
    ensures p == ["1", "2", "3"]
  {
    forall i | 0 <= i < |ws|
      ensures 2 <= ws[i]
    {
      assert Entry(p[i + 1], ws[i]) in Neighbors(adj, p[i]);
    }
    SumAtLeast(ws, 2);
    ShortSums(ws);
    assert 1 <= |ws| <= 2 by {
      assert p[0] != p[|p| - 1];
    }
    assert RoadEntry("1", p[1], ws[0]) by {
      assert Entry(p[1], ws[0]) in Neighbors(adj, p[0]);
    }
    assert ws[0] <= 5;
    assert p[1] == "2";
    assert |ws| == 2;
    assert p == [p[0], p[1], p[2]];
  }

  /**
    Over such a map a route answer that is empty only when 3 is unreachable,
    and otherwise a walk of shortest weight, is the walk 1, 2, 3.
   */
  lemma AnswerThroughTheMiddle(adj: AdjList, route: seq<NodeId>)
    requires forall u, v, w :: Entry(v, w) in Neighbors(adj, u) ==> RoadEntry(u, v, w)
    requires Shortest(adj, {"1", "2", "3"}, "1", "3", 5)
    requires route == [] ==> !Reachable(adj, {"1", "2", "3"}, "1", "3")
    requires route != [] ==> && Connects(route, "1", "3")
                             && exists ws :: WalkIn(adj, {"1", "2", "3"}, route, ws) && Shortest(adj, {"1", "2", "3"}, "1", "3", Sum(ws))
    ensures route == ["1", "2", "3"]
  {
    var ns := {"1", "2", "3"};
    assert Reachable(adj, ns, "1", "3");
    var ws :| WalkIn(adj, ns, route, ws) && Shortest(adj, ns, "1", "3", Sum(ws));
    ShortestUnique(adj, ns, "1", "3", 5, Sum(ws));
    OnlyWalkOfFive(adj, route, ws);
  }

  /** Asking for the route from 1 to 3 yields the walk through 2. */
  method RouteThroughTheMiddle() returns (r: Outcome<seq<NodeId>>)
    ensures r == Updated(["1", "2", "3"])
  {
    r := ComputeRoute(Crossings, Roads, "1", "3");
    CrossingIds();
    ThreeCrossingsDistance();
    RoadEntries();
    AnswerThroughTheMiddle(Snapshot(["1", "2", "3"], Roads), r.value);
  }

  const Corners: seq<Node> := [Crossings[0], Crossings[2]]

  lemma CornerIds()
    ensures Ids(Corners) == ["1", "3"]
    ensures IdSet(Corners) == {"1", "3"}
    ensures HasId(Corners, "3") && !HasId(Corners, "")
  {
    var ids := Ids(Corners);
    assert ids[0] == "1" && ids[1] == "3";
    assert ids == ["1", "3"];
    assert Corners[1].id == "3";
    forall i | 0 <= i < |Corners|
      ensures Corners[i].id != ""
    {
      assert ids[i] == Corners[i].id;
    }
  }

  /**
    Removing intersection 2 drops the two roads that touch it and keeps the
    direct road 1-3.
   */
  lemma RemovingTheMiddle()
    ensures RemoveNode(Crossings, Roads, "2") == Updated((Corners, [Edge("1", "3", 10)]))
  {
    assert Filter(Crossings, KeepNode("2")) == Corners by {
      assert Crossings[1..] == [Crossings[1], Crossings[2]] && Crossings[1..][1..] == [Crossings[2]];
      assert [Crossings[2]][1..] == [];
    }
    assert Filter(Roads, AvoidsNode("2")) == [Edge("1", "3", 10)] by {
      assert Roads[1..] == [Roads[1], Roads[2]] && Roads[1..][1..] == [Roads[2]];
      assert [Roads[2]][1..] == [];
    }
  }

  /** Distances from intersection 1 once 2 is gone. */
  function FromOneDirect(n: NodeId): int {
    if n == "3" then 10 else 0
  }

  lemma FromOneDirectFeasible()
    ensures forall u, v, w :: Entry(v, w) in Neighbors(Snapshot(["1", "3"], [Edge("1", "3", 10)]), u) ==> FromOneDirect(v) <= FromOneDirect(u) + w
  {
    forall u: NodeId, v: NodeId, w: nat | Entry(v, w) in Neighbors(Snapshot(["1", "3"], [Edge("1", "3", 10)]), u)
      ensures FromOneDirect(v) <= FromOneDirect(u) + w
    {
      SnapshotEntries(["1", "3"], [Edge("1", "3", 10)], u, v, w);
    }
  }

  /** In any map with the entry 1 → 3 (weight 10) over which 0, 10 is feasible, the walk 1, 3 is shortest. */
  lemma DirectRoad(adj: AdjList)
    requires Entry("3", 10) in Neighbors(adj, "1")
    requires forall u, v, w :: Entry(v, w) in Neighbors(adj, u) ==> FromOneDirect(v) <= FromOneDirect(u) + w
    ensures Shortest(adj, {"1", "3"}, "1", "3", 10)
  {
    var p, ws := ["1", "3"], [10];
    assert WalkIn(adj, {"1", "3"}, p, ws);
    assert Sum(ws) == 10 by {
      assert ws[..0] == [];
    }
    PotentialCertifies(adj, {"1", "3"}, FromOneDirect, "1", "3", p, ws, 10);
  }

  /** After that removal 1 and 3 remain connected, at distance 10. */
  lemma MiddleRemovedDistance()
    ensures Shortest(Snapshot(Ids(Corners), [Edge("1", "3", 10)]), IdSet(Corners), "1", "3", 10)
  {
    var left := [Edge("1", "3", 10)];
    var ids := Ids(Corners);
    CornerIds();
    SnapshotEntries(ids, left, "1", "3", 10);
    assert Carries(left[0], "1", "3", 10);
    FromOneDirectFeasible();
    DirectRoad(Snapshot(ids, left));
  }

  /** After that removal every entry of the graph weighs 10. */
  lemma DirectEntries()
    ensures forall u, v, w :: Entry(v, w) in Neighbors(Snapshot(["1", "3"], [Edge("1", "3", 10)]), u) ==> w == 10
  {
    forall u: NodeId, v: NodeId, w: nat | Entry(v, w) in Neighbors(Snapshot(["1", "3"], [Edge("1", "3", 10)]), u)
      ensures w == 10
    {
      SnapshotEntries(["1", "3"], [Edge("1", "3", 10)], u, v, w);
    }
  }

  /** When every entry weighs 10, the only walk from 1 to 3 that weighs 10 is the single step 1, 3. */
  lemma OnlyWalkOfTen(adj: AdjList, ns: set<NodeId>, p: seq<NodeId>, ws: seq<nat>)
    requires forall u, v, w :: Entry(v, w) in Neighbors(adj, u) ==> w == 10
    requires WalkIn(adj, ns, p, ws) && Connects(p, "1", "3") && Sum(ws) == 10
    ensures p == ["1", "3"]
  {
    forall i | 0 <= i < |ws|
      ensures 10 <= ws[i]
    {
      assert Entry(p[i + 1], ws[i]) in Neighbors(adj, p[i]);
    }
    SumAtLeast(ws, 10);
    assert |ws| != 0 by {
      assert p[0] != p[|p| - 1];
    }
    assert p == [p[0], p[1]];
  }

  /** The counterpart of `AnswerThroughTheMiddle` once only the road 1-3 is left. */
  lemma AnswerDirect(adj: AdjList, route: seq<NodeId>)
    requires forall u, v, w :: Entry(v, w) in Neighbors(adj, u) ==> w == 10
    requires Shortest(adj, {"1", "3"}, "1", "3", 10)
    requires route == [] ==> !Reachable(adj, {"1", "3"}, "1", "3")
    requires route != [] ==> && Connects(route, "1", "3")
                             && exists ws :: WalkIn(adj, {"1", "3"}, route, ws) && Shortest(adj, {"1", "3"}, "1", "3", Sum(ws))
    ensures route == ["1", "3"]
  {
    var ns := {"1", "3"};
    assert Reachable(adj, ns, "1", "3");
    var ws :| WalkIn(adj, ns, route, ws) && Shortest(adj, ns, "1", "3", Sum(ws));
    ShortestUnique(adj, ns, "1", "3", 10, Sum(ws));
    OnlyWalkOfTen(adj, ns, route, ws);
  }

  /** Removing intersection 2 and then asking for the route from 1 to 3 yields the direct road. */
  method RouteAfterRemovingTheMiddle() returns (r: Outcome<seq<NodeId>>)
    ensures r == Updated(["1", "3"])
  {
    var removed := RemoveNode(Crossings, Roads, "2");
    RemovingTheMiddle();
    r := ComputeRoute(removed.value.0, removed.value.1, "1", "3");
    CornerIds();
    MiddleRemovedDistance();
    DirectEntries();
    AnswerDirect(Snapshot(["1", "3"], [Edge("1", "3", 10)]), r.value);
  }

  /** A road from an intersection to itself is refused. */
  lemma SelfLoopRefused(edges: seq<Edge>)
    ensures AddRoad(edges, "1", "1", Some(4)) == Rejected(SelfLoop)
  {
  }

  /** An id already in use is refused; ids are compared exactly, so "a" and "A" differ. */
  lemma DuplicateIdRefused()
    ensures AddNode(Crossings, "2", Some(5.0), Some(5.0)) == Rejected(DuplicateId)
    ensures AddNode([NewNode("a", 0.0, 0.0)], "A", Some(5.0), Some(5.0)).Updated?
  {
    assert Crossings[1] in Crossings;
    assert "a" != "A";
  }
}
