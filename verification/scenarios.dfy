/** Small concrete networks that pin down the behaviour of the core: three
    intersections joined by a two-way and a one-way street, a street refused
    by policy HO1, and two opposite one-way streets under HO2. */
module Scenarios {
  import opened Wrappers
  import opened Vertices
  import opened Edges
  import opened Graphs
  import opened Distances
  import opened Paths
  import opened Search
  import opened SearchInvariants
  import opened Dijkstra

  function A(): (v: Vertex) { Vertex(1, "A") }
  function B(): (v: Vertex) { Vertex(2, "B") }
  function C(): (v: Vertex) { Vertex(3, "C") }

  /** A two-way street A-B of weight 10. */
  function StreetAB(): (e: Edge) { EdgeFields(A(), B(), 10.0, "A-B", true, 1) }

  /** A one-way street B-C of weight 5, travelled from B to C only. */
  function StreetBC(): (e: Edge) { EdgeFields(B(), C(), 5.0, "B-C", false, 1) }

  /** Two insertions into a network that admits both streets: both are
      accepted and appended in order. */
  lemma TwoInsertions(g: Graph, e1: Edge, e2: Edge)
    requires Valid(g) && Complies(g.policy, e1) && Complies(g.policy, e2)
    ensures AddEdge(g, e1).Accepted? && AddEdge(AddEdge(g, e1).graph, e2).Accepted?
    ensures AddEdge(AddEdge(g, e1).graph, e2).graph.edges == g.edges + [e1] + [e2]
  {
  }

  lemma Pair(e1: Edge, e2: Edge)
    ensures [] + [e1] + [e2] == [e1, e2]
  {
  }

  /** The example network: inserting A-B and then B-C into an empty HO3
      network accepts both, in that order. */
  lemma ExampleBuilt()
    ensures AddEdge(NewGraph(HO3), StreetAB()).Accepted?
    ensures
      var r := AddEdge(AddEdge(NewGraph(HO3), StreetAB()).graph, StreetBC());
      r.Accepted? && r.graph.edges == [StreetAB(), StreetBC()]
  {
    TwoInsertions(NewGraph(HO3), StreetAB(), StreetBC());
    Pair(StreetAB(), StreetBC());
  }

  /** Who follows whom in a network with the example's streets: A and B
      both ways, B to C, nothing out of C. */
  lemma ExampleSuccessors(g: Graph, v: Id, w: Id)
    requires Valid(g) && g.edges == [StreetAB(), StreetBC()]
    ensures w in SuccessorIds(g, v) <==>
      (v == 1 && w == 2) || (v == 2 && w == 1) || (v == 2 && w == 3)
  {
    SuccessorIff(g, v, w);
    assert forall e :: e in g.edges ==> e == StreetAB() || e == StreetBC();
    if (v == 1 && w == 2) || (v == 2 && w == 1) {
      assert StreetAB() in g.edges && CanTravel(StreetAB(), v, w);
    } else if v == 2 && w == 3 {
      assert StreetBC() in g.edges && CanTravel(StreetBC(), v, w);
    }
  }

  /** The one intersection leading to `w`, when `w` has exactly one. */
  lemma OnlyInto(g: Graph, u: Id, w: Id)
    requires Valid(g) && g.edges == [StreetAB(), StreetBC()]
    requires (u == 1 && w == 2) || (u == 2 && w == 3)
    ensures w in SuccessorIds(g, u)
    ensures forall x :: w in SuccessorIds(g, x) ==> x == u
  {
    ExampleSuccessors(g, u, w);
    forall x | w in SuccessorIds(g, x) ensures x == u {
      ExampleSuccessors(g, x, w);
    }
  }

  /** Each step of the example is charged its own street, and the network
      has one street per pair with non-negative weights. */
  lemma ExampleStreets(g: Graph)
    requires Valid(g) && g.edges == [StreetAB(), StreetBC()]
    ensures Simple(g) && NonNegative(g)
    ensures EdgeBetween(g, 1, 2) == Some(StreetAB())
    ensures EdgeBetween(g, 2, 3) == Some(StreetBC())
  {
    assert Simple(g) by {
      assert !SamePair(g.edges[0], g.edges[1]);
    }
    EdgeBetweenIsTravelled(g, StreetAB(), 1, 2);
    EdgeBetweenIsTravelled(g, StreetBC(), 2, 3);
  }

  /** `getAretesChemins` along A, B, C lists the streets A-B and B-C. */
  lemma ExampleRoute(g: Graph)
    requires Valid(g) && g.edges == [StreetAB(), StreetBC()]
    ensures EdgesAlong(g, [1, 2, 3]) == [StreetAB(), StreetBC()]
  {
    var p, es := [1, 2, 3], [StreetAB(), StreetBC()];
    ExampleStreets(g);
    assert EdgeBetween(g, p[0], p[1]) == Some(es[0]);
    assert EdgeBetween(g, p[1], p[2]) == Some(es[1]);
    ListedStreets(g, p, es);
  }

  /** In a completed run from A over the example's streets, an accessible
      intersection other than A got its distance from the one intersection
      leading to it. */
  lemma PredFromA(e: Engine, v: Id, u: Id)
    requires Consistent(e) && e.graph.edges == [StreetAB(), StreetBC()] && e.source == 1
    requires Accessible(e, v) && v != 1
    requires forall x :: v in SuccessorIds(e.graph, x) ==> x == u
    ensures PredOf(e, u, v) && Accessible(e, u)
    ensures Distance(e, v).value == Distance(e, u).value + StepWeight(e.graph, u, v)
  {
    var g, s := e.graph, State(e);
    AccessibleIsFinite(e, v);
    CoveredAt(1, s, v);
    var p := e.pred[v];
    assert Link(g, s, p, v);
    AccessibleIsFinite(e, p);
  }

  /** In a completed run from A over the example's streets, C got its
      distance from B and B from A. */
  lemma LinksFromA(e: Engine)
    requires Consistent(e) && e.graph.edges == [StreetAB(), StreetBC()] && e.source == 1
    ensures PredOf(e, 2, 3) && PredOf(e, 1, 2) && Accessible(e, 2) && Accessible(e, 1)
    ensures Distance(e, 3).value == Distance(e, 2).value + StepWeight(e.graph, 2, 3)
    ensures Distance(e, 2).value == Distance(e, 1).value + StepWeight(e.graph, 1, 2)
  {
    var g := e.graph;
    OnlyInto(g, 1, 2);
    OnlyInto(g, 2, 3);
    assert IsPathFrom(g, 1, 3, [1, 2, 3]);
    ReachableIsAccessible(e, 3, [1, 2, 3]);
    PredFromA(e, 3, 2);
    PredFromA(e, 2, 1);
  }

  /** The predecessor links and distances a completed run from A over the
      example's streets records. */
  lemma ChainFromA(e: Engine)
    requires Consistent(e) && e.graph.edges == [StreetAB(), StreetBC()] && e.source == 1
    ensures PredOf(e, 2, 3) && PredOf(e, 1, 2) && 1 !in e.pred
    ensures Distance(e, 2) == Fin(10.0) && Distance(e, 3) == Fin(15.0)
  {
    LinksFromA(e);
    SourceRoute(e);
    ExampleStreets(e.graph);
    AccessibleIsFinite(e, 2);
    AccessibleIsFinite(e, 3);
  }

  /** Any completed run from A over the example's streets puts B at 10 and
      C at 15, along the route A, B, C over the streets A-B and B-C. */
  lemma RunFromA(e: Engine)
    requires Consistent(e) && e.graph.edges == [StreetAB(), StreetBC()] && e.source == 1
    ensures Ranked(e)
    ensures Distance(e, 2) == Fin(10.0) && Distance(e, 3) == Fin(15.0)
    ensures PathTo(e, 3) == [1, 2, 3]
    ensures PathEdges(e, 3) == [StreetAB(), StreetBC()]
  {
    ConsistentIsRanked(e);
    ChainFromA(e);
    RouteBack(e);
  }

  /** With C accessible and the links C to B to A recorded, `getChemin(C)`
      is A, B, C and `getAretesChemins(C)` lists A-B and B-C. */
  lemma RouteBack(e: Engine)
    requires Ranked(e) && Valid(e.graph) && e.graph.edges == [StreetAB(), StreetBC()]
    requires PredOf(e, 2, 3) && PredOf(e, 1, 2) && 1 !in e.pred && Accessible(e, 3)
    ensures PathTo(e, 3) == [1, 2, 3]
    ensures PathEdges(e, 3) == [StreetAB(), StreetBC()]
  {
    WalkBack(e);
    ExampleRoute(e.graph);
  }

  /** Following the links C to B to A back to A, which has none. */
  lemma WalkBack(e: Engine)
    requires Ranked(e) && PredOf(e, 2, 3) && PredOf(e, 1, 2) && 1 !in e.pred
    ensures Walk(e, 3) == [1, 2, 3]
  {
    assert Walk(e, 1) == [1];
    assert Walk(e, 2) == [1, 2];
  }

  /** Any completed run from C over the example's streets leaves A and B
      inaccessible: the one-way street cannot be travelled back. */
  lemma RunFromC(e: Engine)
    requires Consistent(e) && e.graph.edges == [StreetAB(), StreetBC()] && e.source == 3
    ensures Ranked(e)
    ensures Distance(e, 1) == Inf && !Accessible(e, 1) && PathTo(e, 1) == []
    ensures Distance(e, 2) == Inf && !Accessible(e, 2) && PathTo(e, 2) == []
  {
    forall v, p | IsPathFrom(e.graph, 3, v, p) ensures v == 3 {
      if |p| > 1 {
        ExampleSuccessors(e.graph, 3, p[1]);
      }
    }
    ShortestDistance(e, 1);
    ShortestDistance(e, 2);
  }

  /** A two-way street with two lanes. */
  function WideStreet(): (e: Edge) { EdgeFields(A(), B(), 10.0, "A-B", true, 2) }

  /** Policy HO1 refuses a two-lane street, but only after registering its
      endpoints: the refused insertion still grows the vertex set. */
  lemma RejectedStillRegisters()
    ensures
      var r := AddEdge(NewGraph(HO1), WideStreet());
      && r == Rejected(r.graph, NotTwoWaySingleLane)
      && r.graph.vertices.Keys == {1, 2} && r.graph.edges == []
  {
    var g := NewGraph(HO1);
    RegisterBoth(g, A(), B());
  }

  /** One-way A to B of weight 1 and one-way B to A of weight 5. */
  function OneWayAB(): (e: Edge) { EdgeFields(A(), B(), 1.0, "A>B", false, 1) }
  function OneWayBA(): (e: Edge) { EdgeFields(B(), A(), 5.0, "B>A", false, 1) }

  /** Both one-way streets are admitted under HO2, in that order. */
  lemma LoopBuilt()
    ensures
      var r := AddEdge(AddEdge(NewGraph(HO2), OneWayAB()).graph, OneWayBA());
      r.Accepted? && r.graph.edges == [OneWayAB(), OneWayBA()]
  {
    TwoInsertions(NewGraph(HO2), OneWayAB(), OneWayBA());
    Pair(OneWayAB(), OneWayBA());
  }

  /** `getArete(B, A)` looks through the adjacency list of B, which holds
      the street from A to B first, and answers with it although it cannot
      be travelled from B. */
  lemma LoopLookup(g: Graph)
    requires Valid(g) && g.edges == [OneWayAB(), OneWayBA()]
    ensures EdgeBetween(g, 2, 1) == Some(OneWayAB())
    ensures !CanTravel(OneWayAB(), 2, 1) && CanTravel(OneWayBA(), 2, 1)
  {
    var es := g.edges;
    assert es[..1] == [OneWayAB()] && es[..1][..0] == [];
    assert g.adj[2] == Incident(es, 2) == [OneWayAB(), OneWayBA()];
  }

  /** A is entered from B alone. */
  lemma LoopSuccessors(g: Graph)
    requires Valid(g) && g.edges == [OneWayAB(), OneWayBA()]
    ensures 1 in SuccessorIds(g, 2)
    ensures forall x :: 1 in SuccessorIds(g, x) ==> x == 2
  {
    SuccessorIff(g, 2, 1);
    assert OneWayBA() in g.edges;
    forall x | 1 in SuccessorIds(g, x) ensures x == 2 {
      SuccessorIff(g, x, 1);
      assert forall f :: f in g.edges ==> f == OneWayAB() || f == OneWayBA();
    }
  }

  /** So any completed run from B over the two one-way streets puts A at 1,
      the weight of the street from A to B, although the only street leading
      from B to A weighs 5. */
  lemma OppositeOneWaysConfused(e: Engine)
    requires Consistent(e) && e.graph.edges == [OneWayAB(), OneWayBA()] && e.source == 2
    ensures EdgeBetween(e.graph, 2, 1) == Some(OneWayAB())
    ensures Distance(e, 1) == Fin(1.0)
  {
    var g, s := e.graph, State(e);
    LoopLookup(g);
    LoopSuccessors(g);
    assert IsPathFrom(g, 2, 1, [2, 1]);
    ReachableIsAccessible(e, 1, [2, 1]);
    AccessibleIsFinite(e, 1);
    CoveredAt(2, s, 1);
    var p := e.pred[1];
    assert Link(g, s, p, 1);
    SourceRoute(e);
    AccessibleIsFinite(e, 2);
  }
}
