/** The working state of one run of Dijkstra's algorithm: the distance and
    predecessor tables, the set of visited intersections, and the priority
    queue of (intersection, distance) entries with lazy deletion. */
module Search {
  import opened Wrappers
  import opened Vertices
  import opened Edges
  import opened Graphs
  import opened Distances
  import opened Paths

  /** `SommetDistance`: an intersection queued with a tentative distance. */
  datatype Entry = Entry(vertex: Id, distance: real)

  /** `compareTo`, that is `Double.compare` on the two distances. */
  function Compare(a: Entry, b: Entry): (r: int)
    ensures r == -1 || r == 0 || r == 1
  {
    if a.distance < b.distance then -1
    else if a.distance > b.distance then 1
    else 0
  }

  /** `compareTo` orders entries by distance alone: it is antisymmetric,
      transitive and total, and two entries at the same distance tie
      whatever their intersections. */
  lemma CompareIsOrder(a: Entry, b: Entry, c: Entry)
    ensures Compare(a, b) <= 0 <==> a.distance <= b.distance
    ensures Compare(a, b) == 0 <==> a.distance == b.distance
    ensures Compare(a, b) == -Compare(b, a)
    ensures Compare(a, b) <= 0 && Compare(b, c) <= 0 ==> Compare(a, c) <= 0
    ensures Compare(a, b) <= 0 || Compare(b, a) <= 0
  {
  }

  /** An entry `poll` may return: one that compares at most equal to every
      queued entry. Which of several tied entries comes out is left open. */
  predicate IsMinimum(x: Entry, q: multiset<Entry>) {
    x in q && forall y :: y in q ==> Compare(x, y) <= 0
  }

  /** A non-empty queue always has an entry to `poll`. */
  lemma {:induction false} MinimumExists(q: multiset<Entry>)
    requires |q| > 0
    ensures exists x :: IsMinimum(x, q)
    decreases |q|
  {
    var y :| y in q;
    var rest := q - multiset{y};
    if |rest| == 0 {
      assert q == multiset{y};
      assert IsMinimum(y, q);
    } else {
      MinimumExists(rest);
      var m :| IsMinimum(m, rest);
      assert forall z :: z in q ==> z == y || z in rest;
      if Compare(y, m) <= 0 {
        assert IsMinimum(y, q);
      } else {
        assert IsMinimum(m, q);
      }
    }
  }

  /** No id occurs twice. */
  predicate NoDup(xs: seq<Id>) {
    forall i, j :: 0 <= i < j < |xs| ==> xs[i] != xs[j]
  }

  /** The position of the first occurrence of `x`, or `|xs|` if absent. */
  function IndexOf(xs: seq<Id>, x: Id): (r: nat)
    ensures r <= |xs|
    ensures r < |xs| <==> x in xs
    ensures r < |xs| ==> xs[r] == x
    decreases |xs|
  {
    if |xs| == 0 then 0
    else if xs[0] == x then 0
    else 1 + IndexOf(xs[1..], x)
  }

  /** Without repetitions, the position of an element is the one it is at. */
  lemma IndexOfNoDup(xs: seq<Id>, i: int)
    requires NoDup(xs) && 0 <= i < |xs|
    ensures IndexOf(xs, xs[i]) == i
  {
  }

  /** Appending a new id keeps every earlier position and puts it last. */
  lemma IndexOfAppend(xs: seq<Id>, y: Id, x: Id)
    requires NoDup(xs) && y !in xs
    ensures NoDup(xs + [y])
    ensures IndexOf(xs + [y], y) == |xs|
    ensures x in xs ==> IndexOf(xs + [y], x) == IndexOf(xs, x)
  {
    var ys := xs + [y];
    assert ys[|xs|] == y;
    IndexOfNoDup(ys, |xs|);
    if x in xs {
      var k := IndexOf(xs, x);
      assert ys[k] == x;
      IndexOfNoDup(ys, k);
    }
  }

  /** The fields of the engine that `executer` fills in, plus the queue. The
      order of visits, `settled`, has no counterpart in the source; it
      records what `visites` saw happen. */
  datatype Search = Search(
    dist: map<Id, Dist>,
    pred: map<Id, Id>,
    settled: seq<Id>,
    visited: set<Id>,
    frontier: multiset<Entry>)

  /** The intersections `initialiser` puts in the distance table: every
      vertex of the network, and the source even when it is not one. */
  function Known(g: Graph, src: Id): (r: set<Id>) {
    g.vertices.Keys + {src}
  }

  /** `initialiser` followed by the first `offer`: every known intersection
      at infinity except the source at zero, no predecessor, nothing
      visited, and the source alone in the queue. */
  function Initial(g: Graph, src: Id): (s: Search)
    ensures s.dist.Keys == Known(g, src)
    ensures s.dist[src] == Fin(0.0)
    ensures forall v :: v in s.dist && v != src ==> s.dist[v] == Inf
    ensures s.pred == map[] && s.settled == [] && s.visited == {}
    ensures s.frontier == multiset{Entry(src, 0.0)}
  {
    Search(
      map v | v in Known(g, src) :: if v == src then Fin(0.0) else Inf,
      map[], [], {}, multiset{Entry(src, 0.0)})
  }

  /** `relaxer(u, w)`: when the street `getArete` finds between `u` and `w`
      gives `w` a strictly shorter distance through `u`, record it, make `u`
      the predecessor of `w`, and queue `w` at that distance; otherwise, and
      when there is no street, change nothing. */
  function Relax(g: Graph, u: Id, w: Id, s: Search): (r: Search)
    requires u in s.dist && w in s.dist
    ensures r.dist.Keys == s.dist.Keys && r.pred.Keys <= s.pred.Keys + {w}
    ensures r.settled == s.settled && r.visited == s.visited
    ensures forall x :: x in s.dist && x != w ==> r.dist[x] == s.dist[x]
    ensures forall x :: x in s.pred && x != w ==> x in r.pred && r.pred[x] == s.pred[x]
    ensures AtMost(r.dist[w], s.dist[w])
    ensures EdgeBetween(g, u, w).Some? ==>
      AtMost(r.dist[w], Plus(s.dist[u], Fin(StepWeight(g, u, w))))
    ensures r.dist[w] != s.dist[w] ==>
      && r.dist[w] == Plus(s.dist[u], Fin(StepWeight(g, u, w))) && r.dist[w].Fin?
      && w in r.pred && r.pred[w] == u
      && r.frontier == s.frontier + multiset{Entry(w, r.dist[w].value)}
    ensures r.dist[w] == s.dist[w] ==> r == s
    ensures EdgeBetween(g, u, w).None? ==> r == s
  {
    match EdgeBetween(g, u, w)
    case None => s
    case Some(e) =>
      var candidate := Plus(s.dist[u], Fin(e.weight));
      if Less(candidate, s.dist[w]) then
        Search(s.dist[w := candidate], s.pred[w := u], s.settled, s.visited,
               s.frontier + multiset{Entry(w, candidate.value)})
      else s
  }
}
