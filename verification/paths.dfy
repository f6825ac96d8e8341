/** Routes through the street network, and what they cost. A route is a
    sequence of vertex ids in which each id is a successor of the one before
    it; each step is charged the weight of the street `getArete` finds
    between the two ids, which is what relaxation charges. */
module Paths {
  import opened Wrappers
  import opened Vertices
  import opened Edges
  import opened Graphs

  /** The weight charged for moving from `u` to `w`. Only consulted on steps
      of a route, where `getArete` always finds a street (`EdgeOfSuccessor`). */
  function StepWeight(g: Graph, u: Id, w: Id): (r: real) {
    match EdgeBetween(g, u, w)
    case Some(e) => e.weight
    case None => 0.0
  }

  /** A non-empty route whose every step follows the direction rule. */
  ghost predicate IsPath(g: Graph, p: seq<Id>)
    requires Valid(g)
  {
    && |p| > 0
    && forall i :: 0 <= i < |p| - 1 ==> p[i + 1] in SuccessorIds(g, p[i])
  }

  /** A route from `src` to `v`. */
  ghost predicate IsPathFrom(g: Graph, src: Id, v: Id, p: seq<Id>)
    requires Valid(g)
  {
    IsPath(g, p) && p[0] == src && p[|p| - 1] == v
  }

  /** The sum of the step weights along a route. */
  function Cost(g: Graph, p: seq<Id>): (r: real)
    decreases |p|
  {
    if |p| <= 1 then 0.0
    else Cost(g, p[..|p| - 1]) + StepWeight(g, p[|p| - 2], p[|p| - 1])
  }

  /** The streets found by `getArete` between consecutive ids, skipping a
      pair for which there is none (the loop of `getAretesChemins`). */
  function EdgesAlong(g: Graph, p: seq<Id>): (r: seq<Edge>)
    decreases |p|
  {
    if |p| <= 1 then []
    else
      var init := EdgesAlong(g, p[..|p| - 1]);
      match EdgeBetween(g, p[|p| - 2], p[|p| - 1])
      case Some(e) => init + [e]
      case None => init
  }

  /** The total weight of a list of streets. */
  function TotalWeight(es: seq<Edge>): (r: real)
    decreases |es|
  {
    if |es| == 0 then 0.0 else TotalWeight(es[..|es| - 1]) + es[|es| - 1].weight
  }

  /** Extending a route by one legal step. */
  lemma PathExtend(g: Graph, p: seq<Id>, w: Id)
    requires Valid(g) && IsPath(g, p) && w in SuccessorIds(g, p[|p| - 1])
    ensures IsPath(g, p + [w])
    ensures Cost(g, p + [w]) == Cost(g, p) + StepWeight(g, p[|p| - 1], w)
  {
    var q := p + [w];
    assert q[..|q| - 1] == p;
    assert q[|q| - 2] == p[|p| - 1] && q[|q| - 1] == w;
    forall i | 0 <= i < |q| - 1 ensures q[i + 1] in SuccessorIds(g, q[i]) {
      if i < |p| - 1 {
        assert q[i] == p[i] && q[i + 1] == p[i + 1];
      }
    }
  }

  /** Dropping the last step of a route leaves a route. */
  lemma PathPrefix(g: Graph, p: seq<Id>)
    requires Valid(g) && IsPath(g, p) && |p| > 1
    ensures IsPath(g, p[..|p| - 1])
    ensures p[|p| - 1] in SuccessorIds(g, p[|p| - 2])
  {
  }

  /** Every pair of consecutive ids has a street between them. */
  predicate Linked(g: Graph, p: seq<Id>) {
    forall i :: 0 <= i < |p| - 1 ==> EdgeBetween(g, p[i], p[i + 1]).Some?
  }

  /** When every step has a street, `getAretesChemins` returns exactly one
      street per step, the one `getArete` finds, and their weights add up to
      the route's cost. */
  lemma {:induction false} EdgesAlongLinked(g: Graph, p: seq<Id>)
    requires |p| > 0 && Linked(g, p)
    ensures |EdgesAlong(g, p)| == |p| - 1
    ensures TotalWeight(EdgesAlong(g, p)) == Cost(g, p)
    ensures forall i :: 0 <= i < |p| - 1 ==>
      Some(EdgesAlong(g, p)[i]) == EdgeBetween(g, p[i], p[i + 1])
    decreases |p|
  {
    if |p| > 1 {
      var init := p[..|p| - 1];
      assert Linked(g, init) by {
        forall i | 0 <= i < |init| - 1 ensures EdgeBetween(g, init[i], init[i + 1]).Some? {
          assert init[i] == p[i] && init[i + 1] == p[i + 1];
        }
      }
      EdgesAlongLinked(g, init);
      assert EdgeBetween(g, p[|p| - 2], p[|p| - 1]).Some?;
      var es := EdgesAlong(g, p);
      var head := EdgesAlong(g, init);
      assert es == head + [EdgeBetween(g, p[|p| - 2], p[|p| - 1]).value];
      assert es[..|es| - 1] == head;
      forall i | 0 <= i < |p| - 1
        ensures Some(es[i]) == EdgeBetween(g, p[i], p[i + 1])
      {
        if i < |p| - 2 {
          assert es[i] == head[i] && init[i] == p[i] && init[i + 1] == p[i + 1];
        }
      }
    }
  }

  /** Along a route every step has a street, so the above applies. */
  lemma EdgesAlongPath(g: Graph, p: seq<Id>)
    requires Valid(g) && IsPath(g, p)
    ensures |EdgesAlong(g, p)| == |p| - 1
    ensures TotalWeight(EdgesAlong(g, p)) == Cost(g, p)
    ensures forall i :: 0 <= i < |p| - 1 ==>
      Some(EdgesAlong(g, p)[i]) == EdgeBetween(g, p[i], p[i + 1])
  {
    forall i | 0 <= i < |p| - 1 ensures EdgeBetween(g, p[i], p[i + 1]).Some? {
      EdgeOfSuccessor(g, p[i], p[i + 1]);
    }
    EdgesAlongLinked(g, p);
  }

  /** With non-negative weights no route costs less than nothing. */
  lemma {:induction false} CostNonNegative(g: Graph, p: seq<Id>)
    requires Valid(g) && NonNegative(g) && IsPath(g, p)
    ensures Cost(g, p) >= 0.0
    decreases |p|
  {
    if |p| > 1 {
      PathPrefix(g, p);
      CostNonNegative(g, p[..|p| - 1]);
      StepWeightNonNegative(g, p[|p| - 2], p[|p| - 1]);
    }
  }

  /** With non-negative weights every step is charged a non-negative weight. */
  lemma StepWeightNonNegative(g: Graph, u: Id, w: Id)
    requires Valid(g) && NonNegative(g)
    ensures StepWeight(g, u, w) >= 0.0
  {
  }

  /** A walk in the source's own sense: consecutive ids joined by streets of
      the network that may be travelled in that direction. */
  ghost predicate IsWalk(g: Graph, p: seq<Id>, es: seq<Edge>) {
    && |p| > 0 && |es| == |p| - 1
    && forall i :: 0 <= i < |es| ==> es[i] in g.edges && CanTravel(es[i], p[i], p[i + 1])
  }

  /** With at most one street per pair of intersections, every street of a
      walk is the one `getArete` finds for its step. */
  lemma WalkSteps(g: Graph, p: seq<Id>, es: seq<Edge>)
    requires Valid(g) && Simple(g) && IsWalk(g, p, es)
    ensures IsPath(g, p)
    ensures forall i :: 0 <= i < |es| ==> EdgeBetween(g, p[i], p[i + 1]) == Some(es[i])
  {
    forall i | 0 <= i < |es|
      ensures p[i + 1] in SuccessorIds(g, p[i]) && EdgeBetween(g, p[i], p[i + 1]) == Some(es[i])
    {
      EdgeBetweenIsTravelled(g, es[i], p[i], p[i + 1]);
    }
  }

  /** A list with one street per step, each the one `getArete` finds, is
      what `getAretesChemins` returns, and weighs what the route costs. */
  lemma ListedStreets(g: Graph, p: seq<Id>, es: seq<Edge>)
    requires |p| > 0 && |es| == |p| - 1
    requires forall i :: 0 <= i < |es| ==> EdgeBetween(g, p[i], p[i + 1]) == Some(es[i])
    ensures EdgesAlong(g, p) == es
    ensures Cost(g, p) == TotalWeight(es)
  {
    assert Linked(g, p);
    EdgesAlongLinked(g, p);
    var found := EdgesAlong(g, p);
    forall i | 0 <= i < |es| ensures found[i] == es[i] {
      assert Some(found[i]) == EdgeBetween(g, p[i], p[i + 1]);
    }
    assert found == es;
  }

  /** So a walk is a route that costs the same, and its streets are the ones
      `getAretesChemins` lists: the two notions of shortest agree. */
  lemma WalksAreRoutes(g: Graph, p: seq<Id>, es: seq<Edge>)
    requires Valid(g) && Simple(g) && IsWalk(g, p, es)
    ensures IsPath(g, p)
    ensures EdgesAlong(g, p) == es
    ensures Cost(g, p) == TotalWeight(es)
  {
    WalkSteps(g, p, es);
    ListedStreets(g, p, es);
  }

  /** And a route, with the streets `getAretesChemins` lists, is a walk. */
  lemma RoutesAreWalks(g: Graph, p: seq<Id>)
    requires Valid(g) && Simple(g) && IsPath(g, p)
    ensures IsWalk(g, p, EdgesAlong(g, p))
    ensures Cost(g, p) == TotalWeight(EdgesAlong(g, p))
  {
    EdgesAlongPath(g, p);
    var es := EdgesAlong(g, p);
    forall i | 0 <= i < |es|
      ensures es[i] in g.edges && CanTravel(es[i], p[i], p[i + 1])
    {
      SuccessorIff(g, p[i], p[i + 1]);
      var e :| e in g.edges && CanTravel(e, p[i], p[i + 1]);
      EdgeBetweenIsTravelled(g, e, p[i], p[i + 1]);
    }
  }
}
