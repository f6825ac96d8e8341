/** `getCheminVersHabitation`: the way from the source of a completed run to
    a dwelling, entering its street at whichever endpoint gives the shorter
    total once the stretch along the street is added. */
module Access {
  import opened Wrappers
  import opened Vertices
  import opened Edges
  import opened Graphs
  import opened Distances
  import opened Paths
  import opened Dijkstra
  import opened Dwellings

  /** `ResultatChemin`: the route to the entry intersection, the total length
      including the stretch along the street, and the entry intersection
      (`null` when the dwelling cannot be reached). */
  datatype Route = Route(path: seq<Id>, total: Dist, arrival: Option<Vertex>)

  /** `dist1` / `dist2`: the run's distance to an endpoint plus the stretch
      from that endpoint to the dwelling, or infinity when the endpoint is
      not accessible. */
  function Through(e: Engine, h: Dwelling, x: Vertex): (r: Dist)
    requires OnStreet(h)
  {
    if Accessible(e, x.id) then Plus(Distance(e, x.id), DistanceFrom(h, x)) else Inf
  }

  /** `getCheminVersHabitation(h)`. With neither endpoint accessible the
      answer is the empty route at infinity with no entry intersection;
      otherwise the endpoint with the smaller total, the street's first
      endpoint on a tie. */
  function RouteToDwelling(e: Engine, h: Dwelling): (r: Route)
    requires Ranked(e) && OnStreet(h)
    ensures r.arrival.None? <==> !Accessible(e, h.street.end1.id) && !Accessible(e, h.street.end2.id)
    ensures r.arrival.Some? ==> r.arrival.value in Ends(h)
  {
    var s1 := h.street.end1;
    var s2 := h.street.end2;
    if !Accessible(e, s1.id) && !Accessible(e, s2.id) then Route([], Inf, None)
    else
      var d1 := Through(e, h, s1);
      var d2 := Through(e, h, s2);
      if AtMost(d1, d2) then Route(PathTo(e, s1.id), d1, Some(s1))
      else Route(PathTo(e, s2.id), d2, Some(s2))
  }

  /** An accessible endpoint gives a finite total: its distance plus the
      stretch along the street. */
  lemma ThroughEndpoint(e: Engine, h: Dwelling, x: Vertex)
    requires OnStreet(h) && x in Ends(h)
    ensures Through(e, h, x).Fin? <==> Accessible(e, x.id)
    ensures Accessible(e, x.id) ==>
      Through(e, h, x).value == Distance(e, x.id).value + DistanceFrom(h, x).value
  {
    AccessibleIffFinite(e, x.id);
    DistanceIdentities(h, x);
  }

  /** An unreachable dwelling gets the empty route at infinity; a reachable
      one gets a finite total, the smaller of the two ends' totals, with the
      route to the end it arrives by. */
  lemma RouteChoice(e: Engine, h: Dwelling)
    requires Ranked(e) && OnStreet(h)
    ensures
      var r := RouteToDwelling(e, h);
      var d1 := Through(e, h, h.street.end1);
      var d2 := Through(e, h, h.street.end2);
      && (r.arrival.None? ==> r == Route([], Inf, None))
      && (r.arrival.Some? ==>
            && r.total.Fin?
            && r.total == Min(d1, d2) && AtMost(r.total, d1) && AtMost(r.total, d2)
            && r.total == Through(e, h, r.arrival.value)
            && r.path == PathTo(e, r.arrival.value.id))
      && (r.arrival.Some? && d1 == d2 ==> r.arrival == Some(h.street.end1))
  {
    EndsAreReferenceAndOther(h);
    ThroughEndpoint(e, h, h.street.end1);
    ThroughEndpoint(e, h, h.street.end2);
  }

  /** After a completed run, the route leads from the source to the entry
      intersection, and its cost plus the stretch along the street is the
      total. */
  lemma RouteRealized(e: Engine, h: Dwelling)
    requires Consistent(e) && OnStreet(h)
    ensures Ranked(e)
    ensures
      var r := RouteToDwelling(e, h);
      r.arrival.Some? ==>
        && IsPathFrom(e.graph, e.source, r.arrival.value.id, r.path)
        && r.total == Fin(Cost(e.graph, r.path) + DistanceFrom(h, r.arrival.value).value)
  {
    ConsistentIsRanked(e);
    var r := RouteToDwelling(e, h);
    RouteChoice(e, h);
    if r.arrival.Some? {
      ShortestDistance(e, r.arrival.value.id);
      ThroughEndpoint(e, h, r.arrival.value);
    }
  }

  /** After a completed run the dwelling is unreachable exactly when no
      route leads from the source to either endpoint of its street. */
  lemma RouteUnreachable(e: Engine, h: Dwelling)
    requires Consistent(e) && OnStreet(h)
    ensures Ranked(e)
    ensures RouteToDwelling(e, h).arrival.None? <==>
      forall p :: !IsPathFrom(e.graph, e.source, h.street.end1.id, p)
               && !IsPathFrom(e.graph, e.source, h.street.end2.id, p)
  {
    ConsistentIsRanked(e);
    ShortestDistance(e, h.street.end1.id);
    ShortestDistance(e, h.street.end2.id);
  }

  /** With non-negative weights, no route from the source to either
      endpoint, followed by the stretch from that endpoint, is shorter than
      the total `getCheminVersHabitation` reports. */
  lemma RouteOptimal(e: Engine, h: Dwelling, x: Vertex, p: seq<Id>)
    requires Consistent(e) && NonNegative(e.graph) && OnStreet(h)
    requires x in Ends(h) && IsPathFrom(e.graph, e.source, x.id, p)
    ensures Ranked(e)
    ensures RouteToDwelling(e, h).total.Fin?
    ensures RouteToDwelling(e, h).total.value <= Cost(e.graph, p) + DistanceFrom(h, x).value
  {
    ConsistentIsRanked(e);
    RouteChoice(e, h);
    ShortestDistance(e, x.id);
    ThroughEndpoint(e, h, x);
    ThroughEndpoint(e, h, h.street.end1);
    ThroughEndpoint(e, h, h.street.end2);
  }

  /** A worked example: a dwelling 50 along a street of
      weight 100 from its first endpoint A, with A at 30 and B at 200 from
      the source, is reached through A with a total of 80 (through B it
      would be 250), along the route to A. */
  lemma EnterByNearerEnd(e: Engine)
    requires Ranked(e)
    requires 1 in e.dist && e.dist[1] == Fin(30.0) && 2 in e.dist && e.dist[2] == Fin(200.0)
    ensures
      var a := Vertex(1, "A");
      var street: Edge := EdgeFields(a, Vertex(2, "B"), 100.0, "", true, 1);
      var h := Dwelling("M", street, a, 50.0);
      && WellPlaced(h)
      && Through(e, h, street.end1) == Fin(80.0)
      && Through(e, h, street.end2) == Fin(250.0)
      && RouteToDwelling(e, h) == Route(PathTo(e, 1), Fin(80.0), Some(a))
  {
  }
}
