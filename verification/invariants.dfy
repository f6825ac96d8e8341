/** What holds of the search state between the steps of `executer`, and
    that each step keeps it. The conditions that hold whatever the weights
    make the predecessor table describe real routes; the ones guarded by
    `NonNegative` make the distances shortest. */
module SearchInvariants {
  import opened Vertices
  import opened Edges
  import opened Graphs
  import opened Distances
  import opened Paths
  import opened Search

  /** `v` has a finite entry in the distance table. */
  predicate Finite(s: Search, v: Id) {
    v in s.dist && s.dist[v].Fin?
  }

  /** The finite distance of `v`; 0 where there is none, and only read where
      `Finite` holds. */
  function Val(s: Search, v: Id): (r: real) {
    if Finite(s, v) then s.dist[v].value else 0.0
  }

  /** The table covers exactly the known intersections; the source sits at
      zero and never gets a predecessor. */
  ghost predicate KeysOk(g: Graph, src: Id, s: Search) {
    && s.dist.Keys == Known(g, src)
    && s.dist[src] == Fin(0.0)
    && src !in s.pred
    && s.pred.Keys <= s.dist.Keys
  }

  /** Each intersection is visited at most once, `visited` is the set of the
      visit order, and every visited intersection has a finite distance. */
  ghost predicate SettledOk(s: Search) {
    && NoDup(s.settled)
    && (forall x :: x in s.visited <==> x in s.settled)
    && (forall i :: 0 <= i < |s.settled| ==> Finite(s, s.settled[i]))
  }

  /** `p` is a correct predecessor of `v`: visited, a step away, exactly one
      step weight closer, and visited earlier than `v` if `v` is visited. */
  ghost predicate Link(g: Graph, s: Search, p: Id, v: Id)
    requires Valid(g)
  {
    && p in s.visited && Finite(s, p) && Finite(s, v)
    && v in SuccessorIds(g, p)
    && Val(s, v) == Val(s, p) + StepWeight(g, p, v)
    && (v in s.visited ==> IndexOf(s.settled, p) < IndexOf(s.settled, v))
  }

  ghost predicate PredOk(g: Graph, s: Search)
    requires Valid(g)
  {
    forall v :: v in s.pred ==> Link(g, s, s.pred[v], v)
  }

  /** Every finite intersection but the source has a predecessor. (The
      trigger keeps the solver from chasing predecessors of predecessors.) */
  ghost predicate Covered(src: Id, s: Search) {
    forall v {:trigger v in s.pred} :: Finite(s, v) && v != src ==> v in s.pred
  }

  /** Queue entries never undercut the table, and every finite unvisited
      intersection is queued at exactly its tabled distance. */
  ghost predicate FrontierOk(s: Search) {
    && (forall x :: x in s.frontier ==> Finite(s, x.vertex) && Val(s, x.vertex) <= x.distance)
    && (forall v :: Finite(s, v) && v !in s.visited ==> Entry(v, Val(s, v)) in s.frontier)
  }

  /** Before the first visit only the source is queued and nothing has a
      predecessor; after it the source is visited. */
  ghost predicate Started(src: Id, s: Search) {
    && (|s.settled| == 0 ==> s.pred == map[] && s.frontier == multiset{Entry(src, 0.0)})
    && (|s.settled| > 0 ==> src in s.visited)
  }

  /** The distance of the intersection visited last (0 before any visit). */
  function Top(s: Search): (r: real) {
    if |s.settled| > 0 then Val(s, s.settled[|s.settled| - 1]) else 0.0
  }

  /** With non-negative weights, the intersection visited last is the
      farthest visited and no farther than anything queued. */
  ghost predicate Ordered(g: Graph, s: Search) {
    NonNegative(g) ==>
      && (forall a :: a in s.visited ==> Val(s, a) <= Top(s))
      && (forall x :: x in s.frontier ==> Top(s) <= x.distance)
  }

  /** The step from `a` to `w` has been relaxed: `w` is finite and, with
      non-negative weights, no farther than through `a`. */
  ghost predicate Steps(g: Graph, s: Search, a: Id, w: Id) {
    && Finite(s, w)
    && (NonNegative(g) ==> Val(s, w) <= Val(s, a) + StepWeight(g, a, w))
  }

  /** Every step out of `done` has been relaxed. */
  ghost predicate Explored(g: Graph, s: Search, done: set<Id>)
    requires Valid(g)
  {
    forall a, w :: a in done && w in SuccessorIds(g, a) ==> Steps(g, s, a, w)
  }

  ghost predicate Core(g: Graph, src: Id, s: Search)
    requires Valid(g)
  {
    && KeysOk(g, src, s) && SettledOk(s) && PredOk(g, s) && Covered(src, s)
    && FrontierOk(s) && Started(src, s) && Ordered(g, s)
  }

  /** The invariant of the outer loop of `executer`. */
  ghost predicate Inv(g: Graph, src: Id, s: Search)
    requires Valid(g)
  {
    Core(g, src, s) && Explored(g, s, s.visited)
  }

  /** The invariant of the inner loop, after visiting `u` and relaxing its
      first `j` successors. */
  ghost predicate Inner(g: Graph, src: Id, s: Search, u: Id, j: int)
    requires Valid(g)
  {
    && Core(g, src, s)
    && |s.settled| > 0 && s.settled[|s.settled| - 1] == u
    && Explored(g, s, s.visited - {u})
    && 0 <= j <= |SuccessorIds(g, u)|
    && forall k :: 0 <= k < j ==> Steps(g, s, u, SuccessorIds(g, u)[k])
  }

  /** Polling `cur` and marking its intersection visited. */
  function Settle(s: Search, cur: Entry): (r: Search)
    ensures r.settled == s.settled + [cur.vertex]
    ensures r.visited == s.visited + {cur.vertex}
    ensures r.frontier == s.frontier - multiset{cur}
    ensures r.dist == s.dist && r.pred == s.pred
  {
    Search(s.dist, s.pred, s.settled + [cur.vertex], s.visited + {cur.vertex},
           s.frontier - multiset{cur})
  }

  /** One pass of the inner loop: relax `w` unless it is already visited. */
  function Visit(g: Graph, u: Id, w: Id, s: Search): (r: Search)
    requires u in s.dist && w in s.dist
    ensures w in s.visited ==> r == s
    ensures w !in s.visited ==> r == Relax(g, u, w, s)
  {
    if w in s.visited then s else Relax(g, u, w, s)
  }

  // ---------------------------------------------------------------------
  // The initial state

  lemma InitInv(g: Graph, src: Id)
    requires Valid(g)
    ensures Inv(g, src, Initial(g, src))
  {
    var s := Initial(g, src);
    assert Val(s, src) == 0.0;
    assert forall v :: Finite(s, v) ==> v == src;
  }

  // ---------------------------------------------------------------------
  // Steps that leave the tables alone

  /** Two states with the same tables agree on every condition that does
      not look at the queue. */
  lemma SameTables(g: Graph, src: Id, s: Search, r: Search, done: set<Id>)
    requires Valid(g)
    requires r.dist == s.dist && r.pred == s.pred
    requires r.settled == s.settled && r.visited == s.visited
    ensures KeysOk(g, src, r) == KeysOk(g, src, s)
    ensures SettledOk(r) == SettledOk(s)
    ensures PredOk(g, r) == PredOk(g, s)
    ensures Covered(src, r) == Covered(src, s)
    ensures Explored(g, r, done) == Explored(g, s, done)
    ensures Top(r) == Top(s)
  {
    assert forall p, v :: Link(g, r, p, v) == Link(g, s, p, v);
    assert forall a, w :: Steps(g, r, a, w) == Steps(g, s, a, w);
  }

  // ---------------------------------------------------------------------
  // Polling an entry whose intersection is already visited

  lemma SkipFrontier(s: Search, cur: Entry)
    requires FrontierOk(s) && IsMinimum(cur, s.frontier) && cur.vertex in s.visited
    ensures FrontierOk(s.(frontier := s.frontier - multiset{cur}))
  {
    var r := s.(frontier := s.frontier - multiset{cur});
    forall x | x in r.frontier ensures Finite(r, x.vertex) && Val(r, x.vertex) <= x.distance {
      assert x in s.frontier;
    }
    forall v | Finite(r, v) && v !in r.visited
      ensures Entry(v, Val(r, v)) in r.frontier
    {
      assert Entry(v, Val(s, v)) in s.frontier;
      assert Entry(v, Val(s, v)) != cur;
    }
  }

  lemma SkipOrdered(g: Graph, s: Search, cur: Entry)
    requires Ordered(g, s)
    ensures Ordered(g, s.(frontier := s.frontier - multiset{cur}))
  {
    var r := s.(frontier := s.frontier - multiset{cur});
    if NonNegative(g) {
      forall x | x in r.frontier ensures Top(r) <= x.distance {
        assert x in s.frontier;
      }
    }
  }

  lemma SkipInv(g: Graph, src: Id, s: Search, cur: Entry)
    requires Valid(g) && Inv(g, src, s)
    requires IsMinimum(cur, s.frontier) && cur.vertex in s.visited
    ensures Inv(g, src, s.(frontier := s.frontier - multiset{cur}))
  {
    var r := s.(frontier := s.frontier - multiset{cur});
    SameTables(g, src, s, r, s.visited);
    SkipFrontier(s, cur);
    SkipOrdered(g, s, cur);
    assert |s.settled| > 0;
  }

  // ---------------------------------------------------------------------
  // Polling an entry whose intersection is not yet visited

  /** The polled entry is at exactly its intersection's tabled distance. */
  lemma PolledIsTabled(s: Search, cur: Entry)
    requires FrontierOk(s) && IsMinimum(cur, s.frontier) && cur.vertex !in s.visited
    ensures Finite(s, cur.vertex) && Val(s, cur.vertex) == cur.distance
  {
    assert Entry(cur.vertex, Val(s, cur.vertex)) in s.frontier;
  }

  lemma SettleSettled(s: Search, cur: Entry)
    requires SettledOk(s) && FrontierOk(s)
    requires IsMinimum(cur, s.frontier) && cur.vertex !in s.visited
    ensures SettledOk(Settle(s, cur))
    ensures forall x :: x in s.settled ==>
      IndexOf(Settle(s, cur).settled, x) == IndexOf(s.settled, x)
    ensures IndexOf(Settle(s, cur).settled, cur.vertex) == |s.settled|
  {
    var r := Settle(s, cur);
    PolledIsTabled(s, cur);
    forall x | x in s.settled ensures IndexOf(r.settled, x) == IndexOf(s.settled, x) {
      IndexOfAppend(s.settled, cur.vertex, x);
    }
    IndexOfAppend(s.settled, cur.vertex, cur.vertex);
    assert forall i :: 0 <= i < |s.settled| ==> r.settled[i] == s.settled[i];
  }

  lemma SettlePred(g: Graph, s: Search, cur: Entry)
    requires Valid(g) && SettledOk(s) && FrontierOk(s) && PredOk(g, s)
    requires IsMinimum(cur, s.frontier) && cur.vertex !in s.visited
    ensures PredOk(g, Settle(s, cur))
  {
    var r := Settle(s, cur);
    SettleSettled(s, cur);
    forall v | v in r.pred ensures Link(g, r, r.pred[v], v) {
      assert Link(g, s, s.pred[v], v);
    }
  }

  lemma SettleFrontier(s: Search, cur: Entry)
    requires FrontierOk(s) && IsMinimum(cur, s.frontier) && cur.vertex !in s.visited
    ensures FrontierOk(Settle(s, cur))
  {
    var r := Settle(s, cur);
    forall x | x in r.frontier ensures Finite(r, x.vertex) && Val(r, x.vertex) <= x.distance {
      assert x in s.frontier;
    }
    forall v | Finite(r, v) && v !in r.visited
      ensures Entry(v, Val(r, v)) in r.frontier
    {
      assert Entry(v, Val(s, v)) in s.frontier;
    }
  }

  lemma SettleOrdered(g: Graph, s: Search, cur: Entry)
    requires Ordered(g, s) && FrontierOk(s)
    requires IsMinimum(cur, s.frontier) && cur.vertex !in s.visited
    ensures Ordered(g, Settle(s, cur))
    ensures Top(Settle(s, cur)) == Val(s, cur.vertex)
  {
    var r := Settle(s, cur);
    PolledIsTabled(s, cur);
    assert Top(r) == cur.distance;
    if NonNegative(g) {
      forall a | a in r.visited ensures Val(r, a) <= Top(r) {
        if a != cur.vertex {
          assert Val(s, a) <= Top(s);
        }
      }
      forall x | x in r.frontier ensures Top(r) <= x.distance {
        assert x in s.frontier;
        assert Compare(cur, x) <= 0;
      }
    }
  }

  lemma SettleStarted(src: Id, s: Search, cur: Entry)
    requires Started(src, s) && IsMinimum(cur, s.frontier)
    ensures Started(src, Settle(s, cur))
  {
    if |s.settled| == 0 {
      assert cur == Entry(src, 0.0);
    }
  }

  lemma SettleInner(g: Graph, src: Id, s: Search, cur: Entry)
    requires Valid(g) && Inv(g, src, s)
    requires IsMinimum(cur, s.frontier) && cur.vertex !in s.visited
    ensures Inner(g, src, Settle(s, cur), cur.vertex, 0)
    ensures cur.vertex in Known(g, src)
  {
    var r := Settle(s, cur);
    SettleSettled(s, cur);
    SettlePred(g, s, cur);
    SettleFrontier(s, cur);
    SettleOrdered(g, s, cur);
    SettleStarted(src, s, cur);
    SettleExplored(g, src, s, cur);
    assert r.visited - {cur.vertex} == s.visited;
  }

  /** Visiting changes no distance, so what was relaxed stays relaxed. */
  lemma SettleExplored(g: Graph, src: Id, s: Search, cur: Entry)
    requires Valid(g) && Explored(g, s, s.visited) && KeysOk(g, src, s) && Covered(src, s)
    ensures Explored(g, Settle(s, cur), s.visited)
    ensures KeysOk(g, src, Settle(s, cur)) && Covered(src, Settle(s, cur))
  {
    var r := Settle(s, cur);
    assert forall a, w :: Steps(g, r, a, w) == Steps(g, s, a, w);
  }

  // ---------------------------------------------------------------------
  // One pass of the inner loop

  /** The successor being relaxed is a known intersection. */
  lemma SuccessorKnown(g: Graph, src: Id, u: Id, w: Id)
    requires Valid(g) && w in SuccessorIds(g, u)
    ensures w in Known(g, src)
  {
    EdgeOfSuccessor(g, u, w);
  }

  /** `r` is `s` after `w` was given the shorter distance `d` through `u`. */
  ghost predicate Improved(g: Graph, s: Search, r: Search, u: Id, w: Id, d: real) {
    && w in s.dist && u != w && Finite(s, u)
    && d == Val(s, u) + StepWeight(g, u, w)
    && Less(Fin(d), s.dist[w])
    && r.dist == s.dist[w := Fin(d)] && r.pred == s.pred[w := u]
    && r.settled == s.settled && r.visited == s.visited
    && r.frontier == s.frontier + multiset{Entry(w, d)}
  }

  /** A relaxation from a finite intersection either changes nothing or
      improves the successor. */
  lemma RelaxCases(g: Graph, u: Id, w: Id, s: Search)
    requires Finite(s, u) && w in s.dist && u != w
    ensures Relax(g, u, w, s) == s
         || Improved(g, s, Relax(g, u, w, s), u, w, Relax(g, u, w, s).dist[w].value)
  {
  }

  /** An improvement touches no distance but that of `w`, and lowers that. */
  lemma ImprovedLowers(g: Graph, s: Search, r: Search, u: Id, w: Id, d: real)
    requires Improved(g, s, r, u, w, d)
    ensures forall x :: x != w ==> Finite(r, x) == Finite(s, x) && Val(r, x) == Val(s, x)
    ensures Finite(r, w) && Val(r, w) == d
    ensures Finite(s, w) ==> d < Val(s, w)
  {
  }

  lemma ImprovedKeys(g: Graph, src: Id, s: Search, r: Search, u: Id, w: Id, d: real)
    requires Improved(g, s, r, u, w, d) && KeysOk(g, src, s) && w != src
    ensures KeysOk(g, src, r)
  {
  }

  lemma ImprovedSettled(g: Graph, s: Search, r: Search, u: Id, w: Id, d: real)
    requires Improved(g, s, r, u, w, d) && SettledOk(s) && w !in s.visited
    ensures SettledOk(r)
  {
    ImprovedLowers(g, s, r, u, w, d);
  }

  lemma ImprovedPred(g: Graph, s: Search, r: Search, u: Id, w: Id, d: real)
    requires Valid(g) && Improved(g, s, r, u, w, d) && PredOk(g, s)
    requires u in s.visited && w !in s.visited && w in SuccessorIds(g, u)
    ensures PredOk(g, r)
  {
    ImprovedLowers(g, s, r, u, w, d);
    forall v | v in r.pred ensures Link(g, r, r.pred[v], v) {
      if v != w {
        assert Link(g, s, s.pred[v], v);
      }
    }
  }

  lemma ImprovedCovered(g: Graph, src: Id, s: Search, r: Search, u: Id, w: Id, d: real)
    requires Improved(g, s, r, u, w, d) && Covered(src, s)
    ensures Covered(src, r)
  {
    ImprovedLowers(g, s, r, u, w, d);
    forall v | Finite(r, v) && v != src ensures v in r.pred {
      if v != w {
        assert v in s.pred;
      }
    }
  }

  lemma ImprovedFrontier(g: Graph, s: Search, r: Search, u: Id, w: Id, d: real)
    requires Improved(g, s, r, u, w, d) && FrontierOk(s)
    ensures FrontierOk(r)
  {
    ImprovedLowers(g, s, r, u, w, d);
    forall x | x in r.frontier ensures Finite(r, x.vertex) && Val(r, x.vertex) <= x.distance {
      if x != Entry(w, d) {
        assert x in s.frontier;
      }
    }
    forall v | Finite(r, v) && v !in r.visited
      ensures Entry(v, Val(r, v)) in r.frontier
    {
      if v != w {
        assert Entry(v, Val(s, v)) in s.frontier;
      }
    }
  }

  lemma ImprovedOrdered(g: Graph, s: Search, r: Search, u: Id, w: Id, d: real)
    requires Valid(g) && Improved(g, s, r, u, w, d) && Ordered(g, s)
    requires w !in s.visited && |s.settled| > 0 && s.settled[|s.settled| - 1] == u
    ensures Ordered(g, r)
  {
    ImprovedLowers(g, s, r, u, w, d);
    assert Top(r) == Top(s) == Val(s, u);
    if NonNegative(g) {
      StepWeightNonNegative(g, u, w);
      forall x | x in r.frontier ensures Top(r) <= x.distance {
        if x != Entry(w, d) {
          assert x in s.frontier;
        }
      }
    }
  }

  lemma StepsKept(g: Graph, s: Search, r: Search, w: Id, a: Id, x: Id)
    requires forall y :: y != w ==> Finite(r, y) == Finite(s, y) && Val(r, y) == Val(s, y)
    requires Finite(s, w) ==> Finite(r, w) && Val(r, w) <= Val(s, w)
    requires a != w && Steps(g, s, a, x)
    ensures Steps(g, r, a, x)
  {
  }

  lemma ImprovedExplored(g: Graph, s: Search, r: Search, u: Id, w: Id, d: real, done: set<Id>)
    requires Valid(g) && Improved(g, s, r, u, w, d) && Explored(g, s, done) && w !in done
    ensures Explored(g, r, done)
  {
    ImprovedLowers(g, s, r, u, w, d);
    forall a, x | a in done && x in SuccessorIds(g, a) ensures Steps(g, r, a, x) {
      StepsKept(g, s, r, w, a, x);
    }
  }

  lemma ImprovedSteps(g: Graph, s: Search, r: Search, u: Id, w: Id, d: real, ws: seq<Id>, j: int)
    requires Improved(g, s, r, u, w, d)
    requires 0 <= j <= |ws| && forall k :: 0 <= k < j ==> Steps(g, s, u, ws[k])
    ensures forall k :: 0 <= k < j ==> Steps(g, r, u, ws[k])
    ensures Steps(g, r, u, w)
  {
    ImprovedLowers(g, s, r, u, w, d);
    forall k | 0 <= k < j ensures Steps(g, r, u, ws[k]) {
      StepsKept(g, s, r, w, u, ws[k]);
    }
  }

  /** Relaxing an unvisited successor of the intersection being visited. */
  lemma ImprovedInner(g: Graph, src: Id, s: Search, r: Search, u: Id, w: Id, d: real, j: int)
    requires Valid(g) && Inner(g, src, s, u, j) && j < |SuccessorIds(g, u)|
    requires w == SuccessorIds(g, u)[j] && w !in s.visited
    requires Improved(g, s, r, u, w, d)
    ensures Inner(g, src, r, u, j + 1)
  {
    var ws := SuccessorIds(g, u);
    assert u in s.visited && src in s.visited;
    ImprovedKeys(g, src, s, r, u, w, d);
    ImprovedSettled(g, s, r, u, w, d);
    ImprovedPred(g, s, r, u, w, d);
    ImprovedCovered(g, src, s, r, u, w, d);
    ImprovedFrontier(g, s, r, u, w, d);
    ImprovedOrdered(g, s, r, u, w, d);
    ImprovedExplored(g, s, r, u, w, d, s.visited - {u});
    ImprovedSteps(g, s, r, u, w, d, ws, j);
  }

  /** A successor that is already visited, or that the relaxation leaves
      alone, has already been relaxed. */
  lemma UnchangedStep(g: Graph, src: Id, s: Search, u: Id, j: int)
    requires Valid(g) && Inner(g, src, s, u, j) && j < |SuccessorIds(g, u)|
    requires u in s.dist && SuccessorIds(g, u)[j] in s.dist
    requires Visit(g, u, SuccessorIds(g, u)[j], s) == s
    ensures Steps(g, s, u, SuccessorIds(g, u)[j])
  {
    var w := SuccessorIds(g, u)[j];
    assert u in s.visited;
    EdgeOfSuccessor(g, u, w);
    if NonNegative(g) {
      StepWeightNonNegative(g, u, w);
    }
    if NonNegative(g) && w in s.visited {
      assert Val(s, w) <= Top(s);
    }
  }

  lemma VisitInner(g: Graph, src: Id, s: Search, u: Id, j: int)
    requires Valid(g) && Inner(g, src, s, u, j) && j < |SuccessorIds(g, u)|
    requires u in s.dist && SuccessorIds(g, u)[j] in s.dist
    ensures Inner(g, src, Visit(g, u, SuccessorIds(g, u)[j], s), u, j + 1)
  {
    var w := SuccessorIds(g, u)[j];
    var r := Visit(g, u, w, s);
    assert u in s.visited && Finite(s, u);
    if r == s {
      UnchangedStep(g, src, s, u, j);
    } else {
      RelaxCases(g, u, w, s);
      ImprovedInner(g, src, s, r, u, w, r.dist[w].value, j);
    }
  }

  /** After the last successor, every step out of every visited
      intersection has been relaxed. */
  lemma InnerDone(g: Graph, src: Id, s: Search, u: Id)
    requires Valid(g) && Inner(g, src, s, u, |SuccessorIds(g, u)|)
    ensures Inv(g, src, s)
  {
    var ws := SuccessorIds(g, u);
    forall a, w | a in s.visited && w in SuccessorIds(g, a) ensures Steps(g, s, a, w) {
      if a == u {
        var k :| 0 <= k < |ws| && ws[k] == w;
      }
    }
  }

  /** Visiting a new intersection shrinks the set of unvisited ones. */
  lemma Progress(known: set<Id>, visited: set<Id>, u: Id)
    requires u in known && u !in visited
    ensures |known - (visited + {u})| < |known - visited|
  {
    assert known - visited == (known - (visited + {u})) + {u};
  }
}
