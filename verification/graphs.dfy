/** The street network (`Graphe`): vertices by id, the ordered list of
    streets, an adjacency index, and a directionality policy fixed at
    construction and checked on every street insertion. */
module Graphs {
  import opened Wrappers
  import opened Vertices
  import opened Edges

  /** HO1: every street two-way with one lane; HO2: every street one-way;
      HO3: no constraint. */
  datatype Policy = HO1 | HO2 | HO3

  datatype Graph = Graph(
    policy: Policy,
    vertices: map<Id, Vertex>,
    edges: seq<Edge>,
    adj: map<Id, seq<Edge>>)

  /** What a policy admits. */
  predicate Complies(p: Policy, e: Edge) {
    match p
    case HO1 => SinglePass(e)
    case HO2 => !e.bidirectional
    case HO3 => true
  }

  /** The two ways `validerArete` throws. */
  datatype PolicyError = NotTwoWaySingleLane | NotOneWay

  /** `validerArete`: None when the street is admitted, otherwise the
      policy's complaint. */
  function Validate(p: Policy, e: Edge): (r: Option<PolicyError>)
    ensures r.None? <==> Complies(p, e)
    ensures r == Some(NotTwoWaySingleLane) <==> p == HO1 && !SinglePass(e)
    ensures r == Some(NotOneWay) <==> p == HO2 && e.bidirectional
  {
    match p
    case HO1 => if !e.bidirectional || e.lanes != 1 then Some(NotTwoWaySingleLane) else None
    case HO2 => if e.bidirectional then Some(NotOneWay) else None
    case HO3 => None
  }

  /** The streets of `es` that have `v` as an endpoint, in list order: what
      the adjacency list of `v` must hold. */
  function Incident(es: seq<Edge>, v: Id): (r: seq<Edge>)
    ensures |r| <= |es|
  {
    if |es| == 0 then []
    else
      Incident(es[..|es| - 1], v)
      + (if Contains(es[|es| - 1], v) then [es[|es| - 1]] else [])
  }

  /** `Incident` keeps exactly the streets that contain `v`. */
  lemma {:induction false} IncidentMembers(es: seq<Edge>, v: Id)
    ensures forall e :: e in Incident(es, v) <==> e in es && Contains(e, v)
    ensures (forall e :: e in es ==> !Contains(e, v)) ==> Incident(es, v) == []
    decreases |es|
  {
    if |es| > 0 {
      var init := es[..|es| - 1];
      IncidentMembers(init, v);
      assert es == init + [es[|es| - 1]];
    }
  }

  /** The invariant every `Graphe` keeps: vertices are filed under their own
      id, every street's endpoints are registered, the adjacency list of each
      vertex is exactly its incident streets in insertion order (so each
      street is in both endpoints' lists), and every street complies with the
      policy. */
  ghost predicate Valid(g: Graph) {
    && g.adj.Keys == g.vertices.Keys
    && (forall id :: id in g.vertices ==> g.vertices[id].id == id)
    && (forall e :: e in g.edges ==> e.end1.id in g.vertices && e.end2.id in g.vertices)
    && (forall id :: id in g.adj ==> g.adj[id] == Incident(g.edges, id))
    && (forall e :: e in g.edges ==> Complies(g.policy, e))
  }

  /** Every street has a non-negative weight (true of every constructed
      street until `setPoids` is called on it). */
  ghost predicate NonNegative(g: Graph) {
    forall e :: e in g.edges ==> e.weight >= 0.0
  }

  /** The constructor: an empty network under a fixed policy. */
  function NewGraph(p: Policy): (g: Graph)
    ensures Valid(g) && g.policy == p
    ensures |g.vertices| == 0 && |g.edges| == 0
  {
    Graph(p, map[], [], map[])
  }

  lemma IncidentAppend(es: seq<Edge>, e: Edge, v: Id)
    ensures Incident(es + [e], v) == Incident(es, v) + (if Contains(e, v) then [e] else [])
  {
    assert (es + [e])[..|es|] == es;
  }

  /** `ajouterSommet`: false, and nothing changes, when the id is taken;
      otherwise true, the id now maps to the vertex with an empty adjacency
      list. */
  function AddVertex(g: Graph, v: Vertex): (r: (Graph, bool))
    ensures r.1 <==> v.id !in g.vertices
    ensures !r.1 ==> r.0 == g
    ensures r.1 ==> && r.0.vertices == g.vertices[v.id := v]
                    && r.0.adj == g.adj[v.id := []]
                    && r.0.edges == g.edges && r.0.policy == g.policy
    ensures |r.0.vertices| == |g.vertices| + (if r.1 then 1 else 0)
    ensures Valid(g) ==> Valid(r.0)
  {
    if v.id in g.vertices then (g, false)
    else
      IncidentMembers(g.edges, v.id);
      (g.(vertices := g.vertices[v.id := v], adj := g.adj[v.id := []]), true)
  }

  /** What `ajouterArete` leaves behind: the graph after the call, and
      whether the policy let the street in. */
  datatype Insertion = Accepted(graph: Graph) | Rejected(graph: Graph, error: PolicyError)

  /** `ajouterArete`: registers unknown endpoints first, then validates, and
      only on success appends the street to the list and to both endpoints'
      adjacency lists. A rejected street can therefore still have grown the
      vertex set. */
  function AddEdge(g: Graph, e: Edge): (r: Insertion)
    requires Valid(g)
    ensures Valid(r.graph) && r.graph.policy == g.policy
    ensures r.Accepted? <==> Complies(g.policy, e)
    ensures r.Rejected? ==> Validate(g.policy, e) == Some(r.error)
    ensures r.graph.edges == g.edges + (if r.Accepted? then [e] else [])
    ensures |r.graph.edges| == |g.edges| + (if r.Accepted? then 1 else 0)
    ensures r.graph.vertices == RegisterEnds(g, e).vertices
  {
    var g2 := RegisterEnds(g, e);
    var check := Validate(g2.policy, e);
    if check.Some? then Rejected(g2, check.value) else Accepted(Attach(g2, e))
  }

  /** After `ajouterArete`, each adjacency list is the old one (empty for a
      newly registered endpoint) with the street appended when it was
      accepted and touches that vertex. */
  lemma AddEdgeAdjacency(g: Graph, e: Edge)
    requires Valid(g)
    ensures AddEdge(g, e).graph.adj.Keys == g.adj.Keys + {e.end1.id, e.end2.id}
    ensures forall id :: id in AddEdge(g, e).graph.adj ==>
      AddEdge(g, e).graph.adj[id] == (if id in g.adj then g.adj[id] else [])
        + (if AddEdge(g, e).Accepted? && Contains(e, id) then [e] else [])
  {
    RegisterBoth(g, e.end1, e.end2);
  }

  /** The first two lines of `ajouterArete`: both endpoints registered, each
      new one with an empty adjacency list. */
  function RegisterEnds(g: Graph, e: Edge): (r: Graph)
    requires Valid(g)
    ensures Valid(r) && r.policy == g.policy && r.edges == g.edges
    ensures r.vertices == Register(Register(g, e.end1), e.end2).vertices
    ensures e.end1.id in r.vertices && e.end2.id in r.vertices
    ensures forall id :: id in r.adj ==> r.adj[id] == (if id in g.adj then g.adj[id] else [])
  {
    Register(Register(g, e.end1), e.end2)
  }

  /** `ajouterSommet` with its answer dropped, as `ajouterArete` calls it. */
  function Register(g: Graph, v: Vertex): (r: Graph)
    requires Valid(g)
    ensures Valid(r) && r.policy == g.policy && r.edges == g.edges
    ensures r.vertices.Keys == g.vertices.Keys + {v.id}
    ensures forall id :: id in g.vertices ==> id in r.vertices && r.vertices[id] == g.vertices[id]
    ensures v.id !in g.vertices ==> r.vertices[v.id] == v
    ensures forall id :: id in r.adj ==> r.adj[id] == (if id in g.adj then g.adj[id] else [])
  {
    AddVertex(g, v).0
  }

  /** What `ajouterArete` does to the vertex map, accepted or not (its
      vertex map is this one): both endpoint ids end up registered, known ids
      keep their vertex, and an unknown id is filed with the street's own
      endpoint. */
  lemma RegisterBoth(g: Graph, a: Vertex, b: Vertex)
    requires Valid(g)
    ensures Register(Register(g, a), b).vertices.Keys == g.vertices.Keys + {a.id, b.id}
    ensures forall id :: id in g.vertices ==> Register(Register(g, a), b).vertices[id] == g.vertices[id]
    ensures a.id !in g.vertices ==> Register(Register(g, a), b).vertices[a.id] == a
    ensures b.id !in g.vertices && b.id != a.id ==> Register(Register(g, a), b).vertices[b.id] == b
  {
  }

  /** The success half of `ajouterArete`, once both endpoints are registered. */
  function Attach(g: Graph, e: Edge): (r: Graph)
    requires Valid(g) && e.end1.id in g.vertices && e.end2.id in g.vertices
    requires Complies(g.policy, e)
    ensures Valid(r)
    ensures r.policy == g.policy && r.vertices == g.vertices && r.edges == g.edges + [e]
    ensures r.adj.Keys == g.adj.Keys
    ensures forall id :: id in r.adj ==> r.adj[id] == g.adj[id] + (if Contains(e, id) then [e] else [])
  {
    var a := g.adj[e.end1.id := g.adj[e.end1.id] + [e]];
    var r := g.(edges := g.edges + [e], adj := a[e.end2.id := a[e.end2.id] + [e]]);
    assert forall id :: id in r.adj ==> r.adj[id] == g.adj[id] + (if Contains(e, id) then [e] else []);
    assert Valid(r) by {
      forall id | id in r.adj
        ensures r.adj[id] == Incident(r.edges, id)
      {
        IncidentAppend(g.edges, e, id);
      }
    }
    r
  }

  /** Successors along an adjacency list, in list order: the far endpoint of
      each street that may be travelled away from `v`. */
  function SuccessorsAlong(es: seq<Edge>, v: Id): (r: seq<Vertex>)
    requires forall e :: e in es ==> Contains(e, v)
    ensures |r| <= |es|
  {
    if |es| == 0 then []
    else
      var other := OtherEnd(es[0], v).value;
      (if CanTravel(es[0], v, other.id) then [other] else [])
      + SuccessorsAlong(es[1..], v)
  }

  /** `getSuccesseurs`: empty for an unknown vertex. */
  function Successors(g: Graph, v: Id): (r: seq<Vertex>)
    requires Valid(g)
    ensures v !in g.vertices ==> r == []
    ensures v in g.vertices ==> |r| <= |g.adj[v]|
  {
    IncidentMembers(g.edges, v);
    if v in g.adj then SuccessorsAlong(g.adj[v], v) else []
  }

  function Ids(vs: seq<Vertex>): (r: seq<Id>)
    ensures |r| == |vs| && forall i :: 0 <= i < |vs| ==> r[i] == vs[i].id
  {
    seq(|vs|, i requires 0 <= i < |vs| => vs[i].id)
  }

  /** The ids of `Successors(g, v)`. */
  function SuccessorIds(g: Graph, v: Id): (r: seq<Id>)
    requires Valid(g)
  {
    Ids(Successors(g, v))
  }

  lemma {:induction false} SuccessorsAlongIff(es: seq<Edge>, v: Id, w: Id)
    requires forall e :: e in es ==> Contains(e, v)
    ensures w in Ids(SuccessorsAlong(es, v)) <==> exists e :: e in es && CanTravel(e, v, w)
    decreases |es|
  {
    if |es| > 0 {
      var other := OtherEnd(es[0], v).value;
      var head := if CanTravel(es[0], v, other.id) then [other] else [];
      var tail := SuccessorsAlong(es[1..], v);
      assert SuccessorsAlong(es, v) == head + tail;
      assert Ids(head + tail) == Ids(head) + Ids(tail);
      SuccessorsAlongIff(es[1..], v, w);
      TravelRules(es[0], v, w);
      if exists e :: e in es && CanTravel(e, v, w) {
        var e :| e in es && CanTravel(e, v, w);
        if e != es[0] {
          assert e in es[1..];
          assert w in Ids(tail);
        } else {
          assert Ids(head) == [w];
        }
      }
      if w in Ids(head) {
        assert es[0] in es && CanTravel(es[0], v, w);
      }
      if w in Ids(tail) {
        var e :| e in es[1..] && CanTravel(e, v, w);
        assert e in es;
      }
    }
  }

  /** The loop of `getSuccesseurs` works street by street: the successors
      along two lists one after the other are those along the first followed
      by those along the second, order and repetitions kept. */
  lemma {:induction false} SuccessorsAlongAppend(es1: seq<Edge>, es2: seq<Edge>, v: Id)
    requires forall e :: e in es1 ==> Contains(e, v)
    requires forall e :: e in es2 ==> Contains(e, v)
    ensures forall e :: e in es1 + es2 ==> Contains(e, v)
    ensures SuccessorsAlong(es1 + es2, v) == SuccessorsAlong(es1, v) + SuccessorsAlong(es2, v)
    decreases |es1|
  {
    if |es1| == 0 {
      assert es1 + es2 == es2;
    } else {
      var es := es1 + es2;
      assert es[0] == es1[0];
      assert es[1..] == es1[1..] + es2;
      SuccessorsAlongAppend(es1[1..], es2, v);
      var other := OtherEnd(es1[0], v).value;
      var head := if CanTravel(es1[0], v, other.id) then [other] else [];
      assert SuccessorsAlong(es, v) == head + (SuccessorsAlong(es1[1..], v) + SuccessorsAlong(es2, v));
      assert SuccessorsAlong(es1, v) == head + SuccessorsAlong(es1[1..], v);
    }
  }

  /** One street contributes its far end exactly when it may be travelled
      there from `v`, and nothing otherwise. */
  lemma SuccessorsAlongOne(e: Edge, v: Id)
    requires Contains(e, v)
    ensures SuccessorsAlong([e], v) ==
      if CanTravel(e, v, OtherEnd(e, v).value.id) then [OtherEnd(e, v).value] else []
  {
  }

  /** The direction rule, seen from the whole network: `w` is a successor of
      `v` iff some street of the network may be travelled from `v` to `w`. */
  lemma SuccessorIff(g: Graph, v: Id, w: Id)
    requires Valid(g)
    ensures w in SuccessorIds(g, v) <==> exists e :: e in g.edges && CanTravel(e, v, w)
  {
    IncidentMembers(g.edges, v);
    if v in g.adj {
      SuccessorsAlongIff(g.adj[v], v, w);
      if exists e :: e in g.edges && CanTravel(e, v, w) {
        var e :| e in g.edges && CanTravel(e, v, w);
        assert e in Incident(g.edges, v);
      }
    } else {
      assert !exists e :: e in g.edges && CanTravel(e, v, w);
    }
  }

  /** `getDegre`: the length of the adjacency list, 0 for an unknown
      vertex, direction ignored. */
  function Degree(g: Graph, v: Id): (r: nat)
    ensures v !in g.adj ==> r == 0
    ensures Valid(g) ==> r == |Incident(g.edges, v)|
  {
    IncidentMembers(g.edges, v);
    if v in g.adj then |g.adj[v]| else 0
  }

  /** `getAretesAdjacentes`: a copy of the adjacency list. */
  function IncidentEdges(g: Graph, v: Id): (r: seq<Edge>)
    ensures Valid(g) ==> r == Incident(g.edges, v)
    ensures Valid(g) ==> |r| == Degree(g, v)
  {
    IncidentMembers(g.edges, v);
    if v in g.adj then g.adj[v] else []
  }

  /** The first street of `es` that has `v` as an endpoint. */
  function FirstContaining(es: seq<Edge>, v: Id): (r: Option<Edge>)
    ensures r.Some? ==> r.value in es && Contains(r.value, v)
  {
    if |es| == 0 then None
    else if Contains(es[0], v) then Some(es[0])
    else FirstContaining(es[1..], v)
  }

  /** `FirstContaining` finds nothing exactly when no street has `v` as an
      endpoint, and what it finds comes before every other such street. */
  lemma {:induction false} FirstContainingIsFirst(es: seq<Edge>, v: Id)
    ensures FirstContaining(es, v).None? <==> forall e :: e in es ==> !Contains(e, v)
    ensures FirstContaining(es, v).Some? ==>
      exists k :: 0 <= k < |es| && es[k] == FirstContaining(es, v).value
                  && forall j :: 0 <= j < k ==> !Contains(es[j], v)
    decreases |es|
  {
    if |es| > 0 && !Contains(es[0], v) {
      FirstContainingIsFirst(es[1..], v);
      assert forall e :: e in es ==> e == es[0] || e in es[1..];
      if FirstContaining(es, v).Some? {
        var k :| 0 <= k < |es[1..]| && es[1..][k] == FirstContaining(es, v).value
                 && forall j :: 0 <= j < k ==> !Contains(es[1..][j], v);
        assert es[k + 1] == FirstContaining(es, v).value;
        assert forall j :: 0 <= j < k + 1 ==> !Contains(es[j], v) by {
          forall j | 0 <= j < k + 1 ensures !Contains(es[j], v) {
            if j > 0 { assert es[j] == es[1..][j - 1]; }
          }
        }
      }
    } else if |es| > 0 {
      assert es[0] == FirstContaining(es, v).value;
    }
  }

  /** `getArete`: the first street in `s1`'s adjacency list that contains
      `s2`, whatever its direction. */
  function EdgeBetween(g: Graph, s1: Id, s2: Id): (r: Option<Edge>)
    ensures Valid(g) && r.Some? ==> r.value in g.edges && Contains(r.value, s1) && Contains(r.value, s2)
  {
    IncidentMembers(g.edges, s1);
    FirstContaining(if s1 in g.adj then g.adj[s1] else [], s2)
  }

  /** `getArete` finds nothing exactly when no street joins the two ids, and
      otherwise the first such street of `s1`'s adjacency list. */
  lemma EdgeBetweenFound(g: Graph, s1: Id, s2: Id)
    requires Valid(g)
    ensures EdgeBetween(g, s1, s2).None? <==>
      forall e :: e in g.edges ==> !(Contains(e, s1) && Contains(e, s2))
    ensures s1 in g.adj && EdgeBetween(g, s1, s2).Some? ==>
      exists k :: 0 <= k < |g.adj[s1]| && g.adj[s1][k] == EdgeBetween(g, s1, s2).value
                  && forall j :: 0 <= j < k ==> !Contains(g.adj[s1][j], s2)
  {
    IncidentMembers(g.edges, s1);
    var es := if s1 in g.adj then g.adj[s1] else [];
    FirstContainingIsFirst(es, s2);
  }

  /** Each successor is reached along a street that `getArete` finds. */
  lemma EdgeOfSuccessor(g: Graph, v: Id, w: Id)
    requires Valid(g) && w in SuccessorIds(g, v)
    ensures EdgeBetween(g, v, w).Some?
    ensures EdgeBetween(g, v, w).value in g.edges
    ensures v in g.vertices && w in g.vertices
  {
    SuccessorIff(g, v, w);
    var e :| e in g.edges && CanTravel(e, v, w);
    assert Contains(e, v) && Contains(e, w);
    EdgeBetweenFound(g, v, w);
  }

  /** `getArete(v, v)` answers with the first street incident to `v`. */
  lemma EdgeBetweenSelf(g: Graph, v: Id)
    requires Valid(g) && v in g.adj && |g.adj[v]| > 0
    ensures EdgeBetween(g, v, v) == Some(g.adj[v][0])
  {
    IncidentMembers(g.edges, v);
    assert g.adj[v][0] in Incident(g.edges, v);
  }

  /** Two streets join the same pair of intersections. */
  predicate SamePair(e1: Edge, e2: Edge) {
    Contains(e1, e2.end1.id) && Contains(e1, e2.end2.id)
  }

  /** At most one street per unordered pair of intersections. */
  ghost predicate Simple(g: Graph) {
    forall i, j :: 0 <= i < j < |g.edges| ==> !SamePair(g.edges[i], g.edges[j])
  }

  /** With at most one street per pair, the street `getArete` finds between
      `u` and a successor `w` is the one travelled from `u` to `w`. */
  lemma EdgeBetweenIsTravelled(g: Graph, e: Edge, u: Id, w: Id)
    requires Valid(g) && Simple(g)
    requires e in g.edges && CanTravel(e, u, w)
    ensures w in SuccessorIds(g, u)
    ensures EdgeBetween(g, u, w) == Some(e)
  {
    SuccessorIff(g, u, w);
    EdgeOfSuccessor(g, u, w);
    var f := EdgeBetween(g, u, w).value;
    var i :| 0 <= i < |g.edges| && g.edges[i] == e;
    var j :| 0 <= j < |g.edges| && g.edges[j] == f;
    assert SamePair(e, f) && SamePair(f, e);
  }
}
