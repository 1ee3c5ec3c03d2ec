/**
  The list logic of the map component's editing handlers. Each handler takes
  the current intersection list and road list together with the form inputs
  and either rejects the request, leaving the lists as they are, or returns
  the new list. Form fields that the source parses with `parseFloat` and
  tests with `isNaN` arrive here already parsed, as `Option` values; a road
  selection arrives as the ordered pair `(from, to)` it names, or `None` when
  nothing is selected.
 */
module Editor {

  import opened Wrappers
  import opened Walks

  /** An intersection: its id, its display name and its (latitude, longitude). */
  datatype Node = Node(id: NodeId, name: string, position: (real, real))

  /** A road `{ from, to, weight }`. */
  datatype Edge = Edge(from: NodeId, to: NodeId, weight: nat)

  /** Why a handler refused: the alerts of the source, one kind each. */
  datatype Reason =
    | MissingInput   // an empty selection or id, or a field that does not parse as a number
    | DuplicateId    // "That ID already exists."
    | SelfLoop       // "Cannot connect an intersection to itself."

  /** A handler's outcome: rejected with the lists unchanged, or the new value. */
  datatype Outcome<T> = Rejected(reason: Reason) | Updated(value: T)

  // ---------------------------------------------------------------------
  // Filtering in order (`Array.prototype.filter`)
  // ---------------------------------------------------------------------

  /** The elements of `s` that `keep` accepts, in their original order. */
  function Filter<T(!new)>(s: seq<T>, keep: T -> bool): (r: seq<T>)
    ensures |r| <= |s|
    ensures forall x :: x in r <==> x in s && keep(x)
  {
    if s == [] then [] else (if keep(s[0]) then [s[0]] else []) + Filter(s[1..], keep)
  }

  /** Filtering distributes over concatenation: the kept elements stay in order. */
  lemma {:induction false} FilterConcat<T(!new)>(a: seq<T>, b: seq<T>, keep: T -> bool)
    ensures Filter(a + b, keep) == Filter(a, keep) + Filter(b, keep)
    decreases |a|
  {
    if a == [] {
      assert a + b == b;
    } else {
      assert (a + b)[0] == a[0] && (a + b)[1..] == a[1..] + b;
      FilterConcat(a[1..], b, keep);
    }
  }

  /** Filtering a list whose every element is kept gives the list back. */
  lemma {:induction false} FilterKeepsAll<T(!new)>(s: seq<T>, keep: T -> bool)
    requires forall x :: x in s ==> keep(x)
    ensures Filter(s, keep) == s
    decreases |s|
  {
    if s != [] {
      FilterKeepsAll(s[1..], keep);
    }
  }

  // ---------------------------------------------------------------------
  // Well-formed lists
  // ---------------------------------------------------------------------

  /** `nodes.some(n => `${n.id}` === id)`: some intersection, at some position, has exactly this id. */
  predicate HasId(nodes: seq<Node>, id: NodeId)
    ensures HasId(nodes, id) <==> exists i :: 0 <= i < |nodes| && nodes[i].id == id
  {
    exists n :: n in nodes && n.id == id
  }

  /** No two intersections share an id. */
  ghost predicate UniqueIds(nodes: seq<Node>) {
    forall i, j :: 0 <= i < j < |nodes| ==> nodes[i].id != nodes[j].id
  }

  /** The lists the handlers keep: distinct non-empty ids, and roads between two different known intersections. */
  ghost predicate WellFormed(nodes: seq<Node>, edges: seq<Edge>) {
    && UniqueIds(nodes)
    && (forall n :: n in nodes ==> n.id != "")
    && (forall e :: e in edges ==> HasId(nodes, e.from) && HasId(nodes, e.to) && e.from != e.to)
  }

  // ---------------------------------------------------------------------
  // handleAddNode
  // ---------------------------------------------------------------------

  /** The node appended for a new id: it is named "Intersection <id>". */
  function NewNode(id: NodeId, lat: real, lng: real): (n: Node)
    ensures n.id == id && n.position == (lat, lng)
    ensures |n.name| == |id| + 13 && n.name[..13] == "Intersection " && n.name[13..] == id
  {
    Node(id, "Intersection " + id, (lat, lng))
  }

  /**
    Rejects an empty id or an unparsed coordinate first, then an id already
    in use (compared as exact strings); otherwise appends one intersection.
   */
  function AddNode(nodes: seq<Node>, id: NodeId, lat: Option<real>, lng: Option<real>): (r: Outcome<seq<Node>>)
    ensures r == Rejected(MissingInput) <==> id == "" || lat.None? || lng.None?
    ensures r == Rejected(DuplicateId) <==> id != "" && lat.Some? && lng.Some? && HasId(nodes, id)
    ensures r.Updated? <==> id != "" && lat.Some? && lng.Some? && !HasId(nodes, id)
    ensures r.Updated? ==> r.value == nodes + [NewNode(id, lat.value, lng.value)]
  {
    if id == "" || lat.None? || lng.None? then Rejected(MissingInput)
    else if HasId(nodes, id) then Rejected(DuplicateId)
    else Updated(nodes + [NewNode(id, lat.value, lng.value)])
  }

  // ---------------------------------------------------------------------
  // handleAddEdge
  // ---------------------------------------------------------------------

  /**
    Rejects a missing endpoint or weight first, then a road from an
    intersection to itself; otherwise appends one road at the end.
   */
  function AddRoad(edges: seq<Edge>, from: NodeId, to: NodeId, weight: Option<nat>): (r: Outcome<seq<Edge>>)
    ensures r == Rejected(MissingInput) <==> from == "" || to == "" || weight.None?
    ensures r == Rejected(SelfLoop) <==> from != "" && weight.Some? && from == to
    ensures r.Updated? <==> from != "" && to != "" && weight.Some? && from != to
    ensures r.Updated? ==> r.value == edges + [Edge(from, to, weight.value)]
  {
    if from == "" || to == "" || weight.None? then Rejected(MissingInput)
    else if from == to then Rejected(SelfLoop)
    else Updated(edges + [Edge(from, to, weight.value)])
  }

  // ---------------------------------------------------------------------
  // handleModifyEdge
  // ---------------------------------------------------------------------

  /** The road goes from `f` to `t`: the ordered pair, not the unordered one. */
  predicate Joins(e: Edge, f: NodeId, t: NodeId) {
    e.from == f && e.to == t
  }

  /** Every road from `f` to `t` gets weight `w`; the others, and the order, stay. */
  function Reweigh(edges: seq<Edge>, f: NodeId, t: NodeId, w: nat): (r: seq<Edge>)
    ensures |r| == |edges|
    ensures forall i :: 0 <= i < |edges| ==>
      r[i] == if Joins(edges[i], f, t) then edges[i].(weight := w) else edges[i]
  {
    if edges == [] then []
    else [if Joins(edges[0], f, t) then edges[0].(weight := w) else edges[0]] + Reweigh(edges[1..], f, t, w)
  }

  /** Rejects a missing selection or weight; otherwise reweighs the selected ordered pair. */
  function ModifyWeight(edges: seq<Edge>, key: Option<(NodeId, NodeId)>, w: Option<nat>): (r: Outcome<seq<Edge>>)
    ensures r.Rejected? <==> key.None? || w.None?
    ensures r.Rejected? ==> r.reason == MissingInput
    ensures r.Updated? ==> r.value == Reweigh(edges, key.value.0, key.value.1, w.value)
  {
    if key.None? || w.None? then Rejected(MissingInput)
    else Updated(Reweigh(edges, key.value.0, key.value.1, w.value))
  }

  // ---------------------------------------------------------------------
  // handleRemoveNode
  // ---------------------------------------------------------------------

  function KeepNode(d: NodeId): Node -> bool {
    (n: Node) => n.id != d
  }

  function AvoidsNode(d: NodeId): Edge -> bool {
    (e: Edge) => e.from != d && e.to != d
  }

  /** Rejects an empty selection; otherwise drops intersection `d` and every road that touches it. */
  function RemoveNode(nodes: seq<Node>, edges: seq<Edge>, d: NodeId): (r: Outcome<(seq<Node>, seq<Edge>)>)
    ensures r.Rejected? <==> d == ""
    ensures r.Rejected? ==> r.reason == MissingInput
    ensures r.Updated? ==> r.value == (Filter(nodes, KeepNode(d)), Filter(edges, AvoidsNode(d)))
  {
    if d == "" then Rejected(MissingInput)
    else Updated((Filter(nodes, KeepNode(d)), Filter(edges, AvoidsNode(d))))
  }

  // ---------------------------------------------------------------------
  // handleRemoveEdge
  // ---------------------------------------------------------------------

  function KeepRoad(f: NodeId, t: NodeId): Edge -> bool {
    (e: Edge) => !Joins(e, f, t)
  }

  /** Rejects a missing selection; otherwise drops every road from `f` to `t`. */
  function RemoveEdge(edges: seq<Edge>, key: Option<(NodeId, NodeId)>): (r: Outcome<seq<Edge>>)
    ensures r.Rejected? <==> key.None?
    ensures r.Rejected? ==> r.reason == MissingInput
    ensures r.Updated? ==> r.value == Filter(edges, KeepRoad(key.value.0, key.value.1))
  {
    if key.None? then Rejected(MissingInput)
    else Updated(Filter(edges, KeepRoad(key.value.0, key.value.1)))
  }

  // ---------------------------------------------------------------------
  // What the handlers promise
  // ---------------------------------------------------------------------

  /** A new intersection can be found by its id afterwards, and ids stay distinct. */
  lemma AddNodeKeepsIdsUnique(nodes: seq<Node>, id: NodeId, lat: Option<real>, lng: Option<real>)
    requires UniqueIds(nodes)
    ensures AddNode(nodes, id, lat, lng).Updated? ==>
      && UniqueIds(AddNode(nodes, id, lat, lng).value)
      && HasId(AddNode(nodes, id, lat, lng).value, id)
  {
    var r := AddNode(nodes, id, lat, lng);
    if r.Updated? {
      var ns := r.value;
      forall i, j | 0 <= i < j < |ns|
        ensures ns[i].id != ns[j].id
      {
        if j == |nodes| {
          assert ns[i] in nodes;
        } else {
          assert ns[i] == nodes[i] && ns[j] == nodes[j];
        }
      }
      assert ns[|nodes|] in ns;
    }
  }

  /** Removing a node leaves no intersection with its id and no road touching it, and keeps everything else. */
  lemma RemoveNodeDropsIncident(nodes: seq<Node>, edges: seq<Edge>, d: NodeId)
    requires d != ""
    ensures var (ns, es) := RemoveNode(nodes, edges, d).value;
      && !HasId(ns, d)
      && (forall e :: e in es ==> e.from != d && e.to != d)
      && (forall e :: e in edges && e.from != d && e.to != d ==> e in es)
      && (forall n :: n in nodes && n.id != d ==> n in ns)
  {
    var (ns, es) := RemoveNode(nodes, edges, d).value;
    forall n | n in ns
      ensures n.id != d
    {
      assert KeepNode(d)(n);
    }
    forall e | e in es
      ensures e.from != d && e.to != d
    {
      assert AvoidsNode(d)(e);
    }
  }

  /** Removing a node that was never there leaves both lists exactly as they were. */
  lemma RemoveAbsentNode(nodes: seq<Node>, edges: seq<Edge>, d: NodeId)
    requires d != "" && WellFormed(nodes, edges) && !HasId(nodes, d)
    ensures RemoveNode(nodes, edges, d) == Updated((nodes, edges))
  {
    FilterKeepsAll(nodes, KeepNode(d));
    FilterKeepsAll(edges, AvoidsNode(d));
  }

  /** Adding an intersection and then removing it by its id restores the list. */
  lemma AddThenRemoveNode(nodes: seq<Node>, edges: seq<Edge>, id: NodeId, lat: real, lng: real)
    requires WellFormed(nodes, edges)
    requires AddNode(nodes, id, Some(lat), Some(lng)).Updated?
    ensures RemoveNode(AddNode(nodes, id, Some(lat), Some(lng)).value, edges, id) == Updated((nodes, edges))
  {
    var n := NewNode(id, lat, lng);
    var keep := KeepNode(id);
    assert !keep(n);
    assert Filter([n], keep) == [] by {
      assert [n][1..] == [];
    }
    FilterConcat(nodes, [n], keep);
    RemoveAbsentNode(nodes, edges, id);
    assert Filter(nodes + [n], keep) == nodes + [] == nodes;
  }

  /** Removing a road keeps every other road in order, and no road from `f` to `t` is left. */
  lemma RemoveEdgeDropsPair(edges: seq<Edge>, f: NodeId, t: NodeId)
    ensures var es := RemoveEdge(edges, Some((f, t))).value;
      && (forall e :: e in es ==> !Joins(e, f, t))
      && (forall e :: e in edges && !Joins(e, f, t) ==> e in es)
  {
    var es := RemoveEdge(edges, Some((f, t))).value;
    forall e | e in es
      ensures !Joins(e, f, t)
    {
      assert KeepRoad(f, t)(e);
    }
  }

  /** Adding a road that did not exist and then removing its ordered pair restores the list. */
  lemma AddThenRemoveRoad(edges: seq<Edge>, from: NodeId, to: NodeId, w: nat)
    requires AddRoad(edges, from, to, Some(w)).Updated?
    requires forall e :: e in edges ==> !Joins(e, from, to)
    ensures RemoveEdge(AddRoad(edges, from, to, Some(w)).value, Some((from, to))) == Updated(edges)
  {
    var e, keep := Edge(from, to, w), KeepRoad(from, to);
    assert !keep(e);
    assert Filter([e], keep) == [] by {
      assert [e][1..] == [];
    }
    FilterConcat(edges, [e], keep);
    FilterKeepsAll(edges, keep);
    assert Filter(edges + [e], keep) == edges + [] == edges;
  }

  /** Reweighing is idempotent, and it does not change which roads a removal of the pair drops. */
  lemma {:induction false} ReweighThenRemove(edges: seq<Edge>, f: NodeId, t: NodeId, w: nat)
    ensures Reweigh(Reweigh(edges, f, t, w), f, t, w) == Reweigh(edges, f, t, w)
    ensures Filter(Reweigh(edges, f, t, w), KeepRoad(f, t)) == Filter(edges, KeepRoad(f, t))
    decreases |edges|
  {
    if edges != [] {
      ReweighThenRemove(edges[1..], f, t, w);
      assert Reweigh(edges, f, t, w)[1..] == Reweigh(edges[1..], f, t, w);
      assert Reweigh(Reweigh(edges, f, t, w), f, t, w)[1..] == Reweigh(Reweigh(edges[1..], f, t, w), f, t, w);
    }
  }

  /** Adding an intersection keeps the lists well formed. */
  lemma AddNodeKeepsWellFormed(nodes: seq<Node>, edges: seq<Edge>, id: NodeId, lat: Option<real>, lng: Option<real>)
    requires WellFormed(nodes, edges) && AddNode(nodes, id, lat, lng).Updated?
    ensures WellFormed(AddNode(nodes, id, lat, lng).value, edges)
  {
    AddNodeKeepsIdsUnique(nodes, id, lat, lng);
    var ns := AddNode(nodes, id, lat, lng).value;
    forall e | e in edges
      ensures HasId(ns, e.from) && HasId(ns, e.to)
    {
      var a :| a in nodes && a.id == e.from;
      var b :| b in nodes && b.id == e.to;
      assert a in ns && b in ns;
    }
  }

  /**
    Adding a road between two existing intersections keeps the lists well
    formed. The handler itself does not check that the endpoints exist, and
    a selection can outlive its intersection: removing an intersection
    clears only its own selection field, so a road-endpoint selection that named it
    still does. This lemma therefore assumes both endpoints exist.
   */
  lemma AddRoadKeepsWellFormed(nodes: seq<Node>, edges: seq<Edge>, from: NodeId, to: NodeId, weight: Option<nat>)
    requires WellFormed(nodes, edges) && HasId(nodes, from) && HasId(nodes, to)
    requires AddRoad(edges, from, to, weight).Updated?
    ensures WellFormed(nodes, AddRoad(edges, from, to, weight).value)
  {
  }

  /** Changing a weight keeps the lists well formed: no road changes its endpoints. */
  lemma ModifyKeepsWellFormed(nodes: seq<Node>, edges: seq<Edge>, key: Option<(NodeId, NodeId)>, w: Option<nat>)
    requires WellFormed(nodes, edges) && ModifyWeight(edges, key, w).Updated?
    ensures WellFormed(nodes, ModifyWeight(edges, key, w).value)
  {
    var es := ModifyWeight(edges, key, w).value;
    forall e | e in es
      ensures HasId(nodes, e.from) && HasId(nodes, e.to) && e.from != e.to
    {
      var i :| 0 <= i < |es| && es[i] == e;
      assert edges[i] in edges;
    }
  }

  /** Removing a road keeps the lists well formed. */
  lemma RemoveEdgeKeepsWellFormed(nodes: seq<Node>, edges: seq<Edge>, key: Option<(NodeId, NodeId)>)
    requires WellFormed(nodes, edges) && RemoveEdge(edges, key).Updated?
    ensures WellFormed(nodes, RemoveEdge(edges, key).value)
  {
  }

  /** Removing an intersection keeps the lists well formed: what survives refers only to surviving intersections. */
  lemma RemoveNodeKeepsWellFormed(nodes: seq<Node>, edges: seq<Edge>, d: NodeId)
    requires WellFormed(nodes, edges) && d != ""
    ensures WellFormed(RemoveNode(nodes, edges, d).value.0, RemoveNode(nodes, edges, d).value.1)
  {
    var (ns, es) := RemoveNode(nodes, edges, d).value;
    FilterUnique(nodes, KeepNode(d));
    forall e | e in es
      ensures HasId(ns, e.from) && HasId(ns, e.to)
    {
      assert AvoidsNode(d)(e);
      var a :| a in nodes && a.id == e.from;
      var b :| b in nodes && b.id == e.to;
      assert a in ns && b in ns;
    }
  }

  /** A filtered list of intersections with distinct ids still has distinct ids. */
  lemma {:induction false} FilterUnique(nodes: seq<Node>, keep: Node -> bool)
    requires UniqueIds(nodes)
    ensures UniqueIds(Filter(nodes, keep))
    decreases |nodes|
  {
    if nodes != [] {
      var rest := nodes[1..];
      assert UniqueIds(rest) by {
        forall i, j | 0 <= i < j < |rest|
          ensures rest[i].id != rest[j].id
        {
          assert rest[i] == nodes[i + 1] && rest[j] == nodes[j + 1];
        }
      }
      FilterUnique(rest, keep);
      var r := Filter(nodes, keep);
      if keep(nodes[0]) {
        forall i, j | 0 <= i < j < |r|
          ensures r[i].id != r[j].id
        {
          if i == 0 {
            assert r[j] in Filter(rest, keep);
            var k :| 0 <= k < |rest| && rest[k] == r[j];
            assert nodes[k + 1] == r[j];
          } else {
            assert r[i] == Filter(rest, keep)[i - 1] && r[j] == Filter(rest, keep)[j - 1];
          }
        }
      }
    }
  }
}
