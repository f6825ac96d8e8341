/** Streets (`Arete`): a weighted link between two distinct intersections,
    with a direction flag and a lane count. */
module Edges {
  import opened Wrappers
  import opened Vertices

  /** The fields of a street. `end1` and `end2` are final in the source;
      `weight`, `name`, `bidirectional` and `lanes` have setters. */
  datatype EdgeFields = EdgeFields(
    end1: Vertex,
    end2: Vertex,
    weight: real,
    name: string,
    bidirectional: bool,
    lanes: int)

  /** Every street the constructor can build joins two vertices with
      different ids, and no setter touches the endpoints, so this holds of
      every street for its whole life. */
  type Edge = e: EdgeFields | e.end1.id != e.end2.id
    witness EdgeFields(Vertex(1, "1"), Vertex(2, "2"), 0.0, "", true, 1)

  /** Why the constructor refuses its arguments, in the order it checks. */
  datatype EdgeError = NullEndpoint | SelfLoop | NegativeWeight

  /** The six-argument constructor. A missing endpoint is reported first,
      then equal endpoints, then a negative weight; a missing name becomes "". */
  function NewEdge(s1: Option<Vertex>, s2: Option<Vertex>, weight: real,
                   name: Option<string>, bidirectional: bool, lanes: int)
    : (r: Result<Edge, EdgeError>)
    ensures r.Ok? <==>
      s1.Some? && s2.Some? && !SameVertex(s1.value, s2.value) && weight >= 0.0
    ensures (s1.None? || s2.None?) ==> r == Err(NullEndpoint)
    ensures s1.Some? && s2.Some? && SameVertex(s1.value, s2.value) ==> r == Err(SelfLoop)
    ensures s1.Some? && s2.Some? && !SameVertex(s1.value, s2.value) && weight < 0.0 ==>
      r == Err(NegativeWeight)
    ensures r.Ok? ==>
      && r.value.end1 == s1.value && r.value.end2 == s2.value
      && r.value.weight == weight && r.value.weight >= 0.0
      && r.value.name == (if name.Some? then name.value else "")
      && r.value.bidirectional == bidirectional && r.value.lanes == lanes
  {
    if s1.None? || s2.None? then Err(NullEndpoint)
    else if SameVertex(s1.value, s2.value) then Err(SelfLoop)
    else if weight < 0.0 then Err(NegativeWeight)
    else
      var n := if name.Some? then name.value else "";
      Ok(EdgeFields(s1.value, s2.value, weight, n, bidirectional, lanes))
  }

  /** The three-argument constructor: an unnamed two-way street with one lane. */
  function NewDefaultEdge(s1: Option<Vertex>, s2: Option<Vertex>, weight: real)
    : (r: Result<Edge, EdgeError>)
    ensures r.Ok? <==>
      s1.Some? && s2.Some? && !SameVertex(s1.value, s2.value) && weight >= 0.0
    ensures r.Ok? ==> r.value.end1 == s1.value && r.value.end2 == s2.value
    ensures r.Ok? ==> SinglePass(r.value) && r.value.name == "" && r.value.weight == weight
    ensures r.Err? ==> r == NewEdge(s1, s2, weight, Some(""), true, 1)
  {
    NewEdge(s1, s2, weight, Some(""), true, 1)
  }

  /** `ramassageCompletEnUnPassage`: one pass of the truck collects both
      sides exactly when the street is two-way with a single lane. */
  predicate SinglePass(e: Edge) {
    e.bidirectional && e.lanes == 1
  }

  /** `contient`: the street has an endpoint with this id. */
  predicate Contains(e: Edge, v: Id) {
    e.end1.id == v || e.end2.id == v
  }

  /** `peutAllerDe`: a street is always travelled from `end1` to `end2`, and
      from `end2` to `end1` only when it is two-way. */
  predicate CanTravel(e: Edge, from: Id, to: Id) {
    if from == e.end1.id && to == e.end2.id then true
    else if from == e.end2.id && to == e.end1.id then e.bidirectional
    else false
  }

  /** `getAutreSommet`: the endpoint across the street; None where the
      source throws because the vertex is not on the street. */
  function OtherEnd(e: Edge, v: Id): (r: Option<Vertex>)
    ensures r.Some? <==> Contains(e, v)
    ensures r.Some? ==> Contains(e, r.value.id) && r.value.id != v
    ensures r.Some? ==> r.value == e.end1 || r.value == e.end2
  {
    if v == e.end1.id then Some(e.end2)
    else if v == e.end2.id then Some(e.end1)
    else None
  }

  /** The direction rule read pair by pair: forward always, backward iff
      two-way, and no other pair of ids at all. */
  lemma TravelRules(e: Edge, from: Id, to: Id)
    ensures CanTravel(e, e.end1.id, e.end2.id)
    ensures CanTravel(e, e.end2.id, e.end1.id) == e.bidirectional
    ensures !(from == e.end1.id && to == e.end2.id) && !(from == e.end2.id && to == e.end1.id)
      ==> !CanTravel(e, from, to)
    ensures CanTravel(e, from, to) ==> Contains(e, from) && OtherEnd(e, from) == Some(
      if from == e.end1.id then e.end2 else e.end1) && OtherEnd(e, from).value.id == to
  {
  }

  /** Crossing the street twice brings you back to the endpoint you started from. */
  lemma OtherEndInvolution(e: Edge, v: Id)
    requires Contains(e, v)
    ensures OtherEnd(e, OtherEnd(e, v).value.id).Some?
    ensures OtherEnd(e, OtherEnd(e, v).value.id).value.id == v
  {
  }

  /** The setters each replace one field. */
  function SetWeight(e: Edge, w: real): (r: Edge)
    ensures r.weight == w
  {
    e.(weight := w)
  }

  function SetStreetName(e: Edge, n: string): (r: Edge)
    ensures r.name == n
  {
    e.(name := n)
  }

  function SetBidirectional(e: Edge, b: bool): (r: Edge)
    ensures r.bidirectional == b
  {
    e.(bidirectional := b)
  }

  function SetLanes(e: Edge, k: int): (r: Edge)
    ensures r.lanes == k
  {
    e.(lanes := k)
  }

  /** No setter moves a street: endpoints, membership and the other-endpoint
      map are the same afterwards, and every field but the one set is kept. */
  lemma SettersKeepEndpoints(e: Edge, w: real, n: string, b: bool, k: int, v: Id)
    ensures SetWeight(e, w) == e.(weight := w) && SetStreetName(e, n) == e.(name := n)
    ensures SetBidirectional(e, b) == e.(bidirectional := b) && SetLanes(e, k) == e.(lanes := k)
    ensures Contains(SetWeight(e, w), v) == Contains(e, v)
    ensures OtherEnd(SetWeight(e, w), v) == OtherEnd(e, v)
    ensures OtherEnd(SetStreetName(e, n), v) == OtherEnd(e, v)
    ensures OtherEnd(SetBidirectional(e, b), v) == OtherEnd(e, v)
    ensures OtherEnd(SetLanes(e, k), v) == OtherEnd(e, v)
  {
  }
}
