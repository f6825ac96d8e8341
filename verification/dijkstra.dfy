/** `Dijkstra`: shortest distances and routes from one intersection, and
    the queries answered from the tables `executer` fills in. */
module Dijkstra {
  import opened Vertices
  import opened Edges
  import opened Graphs
  import opened Distances
  import opened Paths
  import opened Search
  import opened SearchInvariants

  /** The engine after `executer(source)`: the network, the source, the
      distance and predecessor tables and the visited set. `settled` is the
      order of the visits, which the source does not keep. */
  datatype Engine = Engine(
    graph: Graph,
    source: Id,
    dist: map<Id, Dist>,
    pred: map<Id, Id>,
    visited: set<Id>,
    settled: seq<Id>)

  /** The engine's tables as a finished search with an empty queue. */
  function State(e: Engine): (s: Search) {
    Search(e.dist, e.pred, e.settled, e.visited, multiset{})
  }

  /** What a completed run leaves behind: the loop invariant with the queue
      drained. */
  ghost predicate Consistent(e: Engine) {
    Valid(e.graph) && Inv(e.graph, e.source, State(e))
  }

  /** `executer(source)`. The queue is polled for an entry of least
      distance (ties broken arbitrarily); an entry whose intersection is
      already visited is dropped; otherwise the intersection is visited and
      each of its unvisited successors relaxed, in the order `getSuccesseurs`
      lists them. */
  method Execute(g: Graph, src: Id) returns (e: Engine)
    requires Valid(g)
    ensures e.graph == g && e.source == src
    ensures e.dist.Keys == Known(g, src) && e.dist[src] == Fin(0.0)
    ensures forall v :: v in e.dist ==> (e.dist[v].Fin? <==> v in e.visited)
    ensures forall v :: v in e.pred ==> e.pred[v] in e.visited && v != src
    ensures NoDup(e.settled) && forall v :: v in e.visited <==> v in e.settled
    ensures Consistent(e)
  {
    var s := Initial(g, src);
    InitInv(g, src);
    while s.frontier != multiset{}
      invariant Inv(g, src, s)
      decreases |Known(g, src) - s.visited|, |s.frontier|
    {
      MinimumExists(s.frontier);
      var cur :| cur in s.frontier && IsMinimum(cur, s.frontier);
      if cur.vertex in s.visited {
        SkipInv(g, src, s, cur);
        s := s.(frontier := s.frontier - multiset{cur});
      } else {
        var u := cur.vertex;
        SettleInner(g, src, s, cur);
        Progress(Known(g, src), s.visited, u);
        s := Settle(s, cur);
        s := RelaxSuccessors(g, src, s, u);
      }
    }
    e := Engine(g, src, s.dist, s.pred, s.visited, s.settled);
    Finished(g, src, s);
  }

  /** The inner loop of `executer`: relax each successor of the intersection
      `u` just visited that is not itself visited yet. */
  method RelaxSuccessors(g: Graph, src: Id, s0: Search, u: Id) returns (s: Search)
    requires Valid(g) && Inner(g, src, s0, u, 0)
    ensures Inv(g, src, s)
    ensures s.visited == s0.visited
  {
    s := s0;
    var succs := Successors(g, u);
    var j := 0;
    while j < |succs|
      invariant Inner(g, src, s, u, j)
      invariant |succs| == |SuccessorIds(g, u)|
      invariant s.visited == s0.visited
    {
      var w := succs[j].id;
      assert w == SuccessorIds(g, u)[j];
      SuccessorKnown(g, src, u, w);
      VisitInner(g, src, s, u, j);
      if w !in s.visited {
        s := Relax(g, u, w, s);
      }
      j := j + 1;
    }
    InnerDone(g, src, s, u);
  }

  /** Once the queue is empty the tables form a consistent engine in which
      exactly the visited intersections are finite. */
  lemma Finished(g: Graph, src: Id, s: Search)
    requires Valid(g) && Inv(g, src, s) && s.frontier == multiset{}
    ensures Consistent(Engine(g, src, s.dist, s.pred, s.visited, s.settled))
    ensures s.dist.Keys == Known(g, src) && s.dist[src] == Fin(0.0)
    ensures forall v :: v in s.dist ==> (s.dist[v].Fin? <==> v in s.visited)
    ensures forall v :: v in s.pred ==> s.pred[v] in s.visited && v != src
    ensures NoDup(s.settled) && forall v :: v in s.visited <==> v in s.settled
  {
    var e := Engine(g, src, s.dist, s.pred, s.visited, s.settled);
    assert State(e) == s;
    forall v | v in s.dist ensures s.dist[v].Fin? <==> v in s.visited {
      assert Finite(s, v) && v !in s.visited ==> Entry(v, Val(s, v)) in s.frontier;
      if v in s.visited {
        assert v in s.settled;
      }
    }
    forall v | v in s.pred ensures s.pred[v] in s.visited && v != src {
      assert Link(g, s, s.pred[v], v);
    }
  }

  // ---------------------------------------------------------------------
  // Queries

  /** `getDistance`: the tabled distance, infinity for an id not in the table. */
  function Distance(e: Engine, v: Id): (r: Dist) {
    if v in e.dist then e.dist[v] else Inf
  }

  /** `estAccessible`: in the table and below infinity. */
  predicate Accessible(e: Engine, v: Id) {
    v in e.dist && Less(e.dist[v], Inf)
  }

  /** The position of `v` in the visit order (past the end if unvisited). */
  function Rank(e: Engine, v: Id): (r: nat) {
    IndexOf(e.settled, v)
  }

  /** Predecessors were visited, and before the intersection they lead to
      when that one was visited too: following them always ends. */
  predicate Ranked(e: Engine) {
    forall v :: v in e.pred ==>
      e.pred[v] in e.settled && (v in e.settled ==> Rank(e, e.pred[v]) < Rank(e, v))
  }

  /** The loop of `getChemin`: follow predecessors back from `v` until there
      is none, listing the intersections from the far end to `v`. */
  function Walk(e: Engine, v: Id): (r: seq<Id>)
    requires Ranked(e)
    decreases Rank(e, v)
  {
    if v in e.pred then Walk(e, e.pred[v]) + [v] else [v]
  }

  /** `getChemin`: empty for an inaccessible destination. */
  function PathTo(e: Engine, v: Id): (r: seq<Id>)
    requires Ranked(e)
  {
    if !Accessible(e, v) then [] else Walk(e, v)
  }

  /** `getAretesChemins`: the street `getArete` finds for each step of the
      route `getChemin` returns. */
  function PathEdges(e: Engine, v: Id): (r: seq<Edge>)
    requires Ranked(e)
  {
    EdgesAlong(e.graph, PathTo(e, v))
  }

  // ---------------------------------------------------------------------
  // What a completed run guarantees

  /** `estAccessible` says exactly that `getDistance` is finite, and ids the
      run never saw are at infinity. */
  lemma AccessibleIffFinite(e: Engine, v: Id)
    ensures Accessible(e, v) <==> Distance(e, v).Fin?
    ensures v !in e.dist ==> Distance(e, v) == Inf && !Accessible(e, v)
  {
  }

  lemma {:induction false} ConsistentIsRanked(e: Engine)
    requires Consistent(e)
    ensures Ranked(e)
  {
    var s := State(e);
    forall v | v in e.pred
      ensures e.pred[v] in e.settled && (v in e.settled ==> Rank(e, e.pred[v]) < Rank(e, v))
    {
      assert Link(e.graph, s, s.pred[v], v);
    }
  }

  /** Finite in the engine's table is finite in its search state. */
  lemma AccessibleIsFinite(e: Engine, v: Id)
    ensures Accessible(e, v) <==> Finite(State(e), v)
    ensures Accessible(e, v) ==> Distance(e, v) == Fin(Val(State(e), v))
  {
  }

  /** The route `getChemin` rebuilds really is a route of the network from
      the source, and it costs exactly the tabled distance, whatever the
      weights. */
  lemma {:induction false} WalkRealizesDistance(e: Engine, v: Id)
    requires Consistent(e) && Accessible(e, v)
    ensures Ranked(e)
    ensures IsPathFrom(e.graph, e.source, v, Walk(e, v))
    ensures Distance(e, v) == Fin(Cost(e.graph, Walk(e, v)))
    decreases Rank(e, v)
  {
    ConsistentIsRanked(e);
    if v in e.pred {
      var p := e.pred[v];
      PredLink(e, v);
      WalkRealizesDistance(e, p);
      var w := Walk(e, p);
      assert Walk(e, v) == w + [v];
      assert w[|w| - 1] == p && (w + [v])[0] == e.source;
      PathExtend(e.graph, w, v);
      assert Distance(e, v) == Fin(Cost(e.graph, w) + StepWeight(e.graph, p, v));
    } else {
      PredLink(e, v);
      assert Walk(e, v) == [v];
    }
  }

  /** What a completed run records about a predecessor link: the
      predecessor is accessible, leads to the intersection, and the
      intersection's distance is the predecessor's plus the step. An
      accessible intersection without one is the source. */
  lemma PredLink(e: Engine, v: Id)
    requires Consistent(e)
    ensures v in e.pred ==>
      && Accessible(e, v) && Accessible(e, e.pred[v])
      && v in SuccessorIds(e.graph, e.pred[v])
      && Distance(e, v).value == Distance(e, e.pred[v]).value + StepWeight(e.graph, e.pred[v], v)
    ensures Accessible(e, v) && v !in e.pred ==> v == e.source && Distance(e, v) == Fin(0.0)
  {
    var g, s := e.graph, State(e);
    AccessibleIsFinite(e, v);
    if v in e.pred {
      var p := e.pred[v];
      assert Link(g, s, p, v);
      AccessibleIsFinite(e, p);
    } else {
      CoveredAt(e.source, s, v);
    }
  }

  /** The one intersection without a predecessor that is finite is the source. */
  lemma CoveredAt(src: Id, s: Search, v: Id)
    requires Covered(src, s)
    ensures Finite(s, v) && v != src ==> v in s.pred
  {
  }

  /** At the end of a run every finite intersection has been visited. */
  lemma FiniteIsVisited(e: Engine, v: Id)
    requires Consistent(e) && Finite(State(e), v)
    ensures v in e.visited
  {
    var s := State(e);
    assert Finite(s, v) && v !in s.visited ==> Entry(v, Val(s, v)) in s.frontier;
  }

  /** Every intersection some route reaches from the source is accessible,
      whatever the weights. */
  lemma {:induction false} ReachableIsAccessible(e: Engine, v: Id, p: seq<Id>)
    requires Consistent(e) && IsPathFrom(e.graph, e.source, v, p)
    ensures Accessible(e, v)
    decreases |p|
  {
    var g, s := e.graph, State(e);
    if |p| == 1 {
      assert v == e.source;
    } else {
      var q := p[..|p| - 1];
      var a := p[|p| - 2];
      PathPrefix(g, p);
      ReachableIsAccessible(e, a, q);
      AccessibleIsFinite(e, a);
      FiniteIsVisited(e, a);
      assert Steps(g, s, a, v);
    }
  }

  /** With non-negative weights, no route from the source is shorter than
      the tabled distance of where it ends. */
  lemma {:induction false} NoShorterPath(e: Engine, v: Id, p: seq<Id>)
    requires Consistent(e) && NonNegative(e.graph)
    requires IsPathFrom(e.graph, e.source, v, p)
    ensures Distance(e, v).Fin? && Distance(e, v).value <= Cost(e.graph, p)
    decreases |p|
  {
    var g, s := e.graph, State(e);
    ReachableIsAccessible(e, v, p);
    AccessibleIsFinite(e, v);
    if |p| > 1 {
      var q := p[..|p| - 1];
      var a := p[|p| - 2];
      PathPrefix(g, p);
      NoShorterPath(e, a, q);
      AccessibleIsFinite(e, a);
      FiniteIsVisited(e, a);
      assert Steps(g, s, a, v);
    }
  }

  /** The promise of the engine: an intersection is accessible exactly when
      some route reaches it from the source; `getChemin` then returns such a
      route, of cost `getDistance`, and with non-negative weights no route is
      shorter. Otherwise `getChemin` is empty and `getDistance` infinite. */
  lemma ShortestDistance(e: Engine, v: Id)
    requires Consistent(e)
    ensures Ranked(e)
    ensures Accessible(e, v) <==> exists p :: IsPathFrom(e.graph, e.source, v, p)
    ensures Accessible(e, v) ==>
      && IsPathFrom(e.graph, e.source, v, PathTo(e, v))
      && Distance(e, v) == Fin(Cost(e.graph, PathTo(e, v)))
    ensures Accessible(e, v) && NonNegative(e.graph) ==>
      forall p :: IsPathFrom(e.graph, e.source, v, p) ==>
        Cost(e.graph, PathTo(e, v)) <= Cost(e.graph, p)
    ensures !Accessible(e, v) ==> PathTo(e, v) == [] && Distance(e, v) == Inf
  {
    ConsistentIsRanked(e);
    if Accessible(e, v) {
      WalkRealizesDistance(e, v);
      if NonNegative(e.graph) {
        forall p | IsPathFrom(e.graph, e.source, v, p)
          ensures Cost(e.graph, PathTo(e, v)) <= Cost(e.graph, p)
        {
          NoShorterPath(e, v, p);
        }
      }
    } else {
      forall p | IsPathFrom(e.graph, e.source, v, p) ensures false {
        ReachableIsAccessible(e, v, p);
      }
    }
  }

  /** The headline promise with at most one street per pair of
      intersections: with non-negative weights, no walk from the source
      over the streets actually travelled weighs less than the tabled
      distance of where it ends. */
  lemma NoShorterWalk(e: Engine, v: Id, p: seq<Id>, es: seq<Edge>)
    requires Consistent(e) && NonNegative(e.graph) && Simple(e.graph)
    requires IsWalk(e.graph, p, es) && p[0] == e.source && p[|p| - 1] == v
    ensures Distance(e, v).Fin? && Distance(e, v).value <= TotalWeight(es)
  {
    WalksAreRoutes(e.graph, p, es);
    NoShorterPath(e, v, p);
  }

  /** The source is at zero and its route is itself alone. */
  lemma SourceRoute(e: Engine)
    requires Consistent(e)
    ensures Ranked(e)
    ensures Distance(e, e.source) == Fin(0.0) && Accessible(e, e.source)
    ensures PathTo(e, e.source) == [e.source] && e.source !in e.pred
  {
    ConsistentIsRanked(e);
    assert e.source !in e.pred;
  }

  /** `a` is the recorded predecessor of `b`. */
  predicate PredOf(e: Engine, a: Id, b: Id) {
    b in e.pred && e.pred[b] == a
  }

  /** The loop of `getChemin` follows predecessor links: the route it
      builds ends at `v`, starts at an intersection with no predecessor,
      and each element is the recorded predecessor of the next. */
  lemma {:induction false} WalkFollowsPred(e: Engine, v: Id)
    requires Ranked(e)
    ensures |Walk(e, v)| > 0 && Walk(e, v)[0] !in e.pred && Walk(e, v)[|Walk(e, v)| - 1] == v
    ensures forall i :: 0 <= i < |Walk(e, v)| - 1 ==> PredOf(e, Walk(e, v)[i], Walk(e, v)[i + 1])
    decreases Rank(e, v)
  {
    if v in e.pred {
      var p := e.pred[v];
      WalkFollowsPred(e, p);
      var w := Walk(e, p);
      var r := Walk(e, v);
      assert r == w + [v];
      forall i | 0 <= i < |r| - 1 ensures PredOf(e, r[i], r[i + 1]) {
        if i < |w| - 1 {
          assert r[i] == w[i] && r[i + 1] == w[i + 1];
        } else {
          assert r[i] == p && r[i + 1] == v;
        }
      }
    }
  }

  /** `getChemin` is empty exactly for an inaccessible destination; otherwise
      it runs from the source to the destination, each element the recorded
      predecessor of the next. */
  lemma PathToFollowsPred(e: Engine, v: Id)
    requires Consistent(e)
    ensures Ranked(e)
    ensures PathTo(e, v) == [] <==> !Accessible(e, v)
    ensures Accessible(e, v) ==>
      && PathTo(e, v)[0] == e.source && PathTo(e, v)[|PathTo(e, v)| - 1] == v
      && forall i :: 0 <= i < |PathTo(e, v)| - 1 ==> PredOf(e, PathTo(e, v)[i], PathTo(e, v)[i + 1])
  {
    ConsistentIsRanked(e);
    if Accessible(e, v) {
      WalkFollowsPred(e, v);
      WalkRealizesDistance(e, v);
    }
  }

  /** `getAretesChemins` lists one street per step of `getChemin`, whose
      weights add up to `getDistance`; with at most one street per pair of
      intersections they are the very streets travelled. */
  lemma PathEdgesMatch(e: Engine, v: Id)
    requires Consistent(e)
    ensures Ranked(e)
    ensures !Accessible(e, v) ==> PathEdges(e, v) == []
    ensures Accessible(e, v) ==>
      && |PathEdges(e, v)| == |PathTo(e, v)| - 1
      && Distance(e, v) == Fin(TotalWeight(PathEdges(e, v)))
    ensures Accessible(e, v) && Simple(e.graph) ==>
      IsWalk(e.graph, PathTo(e, v), PathEdges(e, v))
  {
    ConsistentIsRanked(e);
    if Accessible(e, v) {
      WalkRealizesDistance(e, v);
      EdgesAlongPath(e.graph, PathTo(e, v));
      if Simple(e.graph) {
        RoutesAreWalks(e.graph, PathTo(e, v));
      }
    }
  }

  /** With non-negative weights the distances do not depend on how the
      queue breaks ties: any two completed runs from the same source agree
      on every distance. */
  lemma RunsAgree(e1: Engine, e2: Engine, v: Id)
    requires Consistent(e1) && Consistent(e2)
    requires e1.graph == e2.graph && e1.source == e2.source
    requires NonNegative(e1.graph)
    ensures Distance(e1, v) == Distance(e2, v)
    ensures e1.dist.Keys == e2.dist.Keys
  {
    ShortestDistance(e1, v);
    ShortestDistance(e2, v);
    if Accessible(e1, v) {
      NoShorterPath(e2, v, PathTo(e1, v));
      NoShorterPath(e1, v, PathTo(e2, v));
    }
  }
}
