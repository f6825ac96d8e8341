/** Dwellings (`Habitation`): a named point on a street, at some offset from
    one of the street's two endpoints. */
module Dwellings {
  import opened Wrappers
  import opened JavaHash
  import opened Vertices
  import opened Edges
  import opened Distances

  /** The four fields of a dwelling, which nothing assigns after the
      constructor. The street is held by value here; see `RangeCanEscape`
      for what sharing it with the network allows. */
  datatype Dwelling = Dwelling(name: string, street: Edge, reference: Vertex, offset: real)

  /** Why the constructor refuses its arguments, in the order it checks. */
  datatype DwellingError = BlankName | NullStreet | NullReference | NotAnEndpoint | OffsetOutOfRange

  /** `nom.trim().isEmpty()`: `trim` strips every leading and trailing
      character up to U+0020, so the result is empty exactly when every
      character is one of those. */
  predicate Blank(s: string) {
    forall i :: 0 <= i < |s| ==> s[i] <= ' '
  }

  /** The reference vertex is an endpoint of the street. */
  predicate OnStreet(d: Dwelling) {
    Contains(d.street, d.reference.id)
  }

  /** The offset lies within the street. */
  predicate InRange(d: Dwelling) {
    0.0 <= d.offset <= d.street.weight
  }

  /** What the constructor guarantees of every dwelling it builds. */
  predicate WellPlaced(d: Dwelling) {
    OnStreet(d) && InRange(d)
  }

  /** The constructor: a missing or blank name is reported first, then a
      missing street, a missing reference vertex, a reference vertex off the
      street, and last an offset outside [0, weight]. */
  function NewDwelling(name: Option<string>, street: Option<Edge>, reference: Option<Vertex>,
                       offset: real): (r: Result<Dwelling, DwellingError>)
    ensures r.Ok? <==>
      && name.Some? && !Blank(name.value) && street.Some? && reference.Some?
      && Contains(street.value, reference.value.id)
      && 0.0 <= offset <= street.value.weight
    ensures (name.None? || Blank(name.value)) ==> r == Err(BlankName)
    ensures name.Some? && !Blank(name.value) && street.None? ==> r == Err(NullStreet)
    ensures name.Some? && !Blank(name.value) && street.Some? && reference.None? ==>
      r == Err(NullReference)
    ensures (&& name.Some? && !Blank(name.value) && street.Some? && reference.Some?
             && !Contains(street.value, reference.value.id)) ==> r == Err(NotAnEndpoint)
    ensures (&& name.Some? && !Blank(name.value) && street.Some? && reference.Some?
             && Contains(street.value, reference.value.id)
             && !(0.0 <= offset <= street.value.weight)) ==> r == Err(OffsetOutOfRange)
    ensures r.Ok? ==>
      && WellPlaced(r.value)
      && r.value == Dwelling(name.value, street.value, reference.value, offset)
  {
    if name.None? || Blank(name.value) then Err(BlankName)
    else if street.None? then Err(NullStreet)
    else if reference.None? then Err(NullReference)
    else if !Contains(street.value, reference.value.id) then Err(NotAnEndpoint)
    else if offset < 0.0 || offset > street.value.weight then Err(OffsetOutOfRange)
    else Ok(Dwelling(name.value, street.value, reference.value, offset))
  }

  /** `getAutreSommet()`: the endpoint across the street from the reference. */
  function OtherEndpoint(d: Dwelling): (r: Vertex)
    requires OnStreet(d)
    ensures Contains(d.street, r.id) && r.id != d.reference.id
    ensures r == d.street.end1 || r == d.street.end2
  {
    OtherEnd(d.street, d.reference.id).value
  }

  /** `getDistanceDepuisSommet(depart)`: the offset from the reference
      vertex, the rest of the street from the other endpoint, and infinity
      (not an error) from anywhere else. Vertices are compared by id. */
  function DistanceFrom(d: Dwelling, depart: Vertex): (r: Dist)
    requires OnStreet(d)
  {
    if SameVertex(depart, d.reference) then Fin(d.offset)
    else if SameVertex(depart, OtherEndpoint(d)) then Fin(d.street.weight - d.offset)
    else Inf
  }

  /** `getExtremites()`: the street's two endpoints in street order. */
  function Ends(d: Dwelling): (r: seq<Vertex>) {
    [d.street.end1, d.street.end2]
  }

  /** The distance identities of a dwelling: the offset from its reference,
      the remainder from the other endpoint, both within [0, weight] for a
      well-placed dwelling, summing to the weight, and infinity from every
      vertex that is not an endpoint. */
  lemma DistanceIdentities(d: Dwelling, v: Vertex)
    requires OnStreet(d)
    ensures DistanceFrom(d, d.reference) == Fin(d.offset)
    ensures DistanceFrom(d, OtherEndpoint(d)) == Fin(d.street.weight - d.offset)
    ensures DistanceFrom(d, d.street.end1).Fin? && DistanceFrom(d, d.street.end2).Fin?
    ensures DistanceFrom(d, d.street.end1).value + DistanceFrom(d, d.street.end2).value
            == d.street.weight
    ensures InRange(d) ==>
      && 0.0 <= DistanceFrom(d, d.street.end1).value <= d.street.weight
      && 0.0 <= DistanceFrom(d, d.street.end2).value <= d.street.weight
    ensures !Contains(d.street, v.id) <==> DistanceFrom(d, v) == Inf
    ensures SameVertex(v, d.reference) ==> DistanceFrom(d, v) == Fin(d.offset)
    ensures Contains(d.street, v.id) && !SameVertex(v, d.reference) ==>
      DistanceFrom(d, v) == Fin(d.street.weight - d.offset)
  {
  }

  /** `getExtremites()` lists the reference vertex and the other endpoint,
      in street order, whichever of the two the reference is. */
  lemma EndsAreReferenceAndOther(d: Dwelling)
    requires OnStreet(d)
    ensures |Ends(d)| == 2 && Ends(d)[0] == d.street.end1 && Ends(d)[1] == d.street.end2
    ensures d.reference.id == d.street.end1.id ==> Ends(d)[1] == OtherEndpoint(d)
    ensures d.reference.id == d.street.end2.id ==> Ends(d)[0] == OtherEndpoint(d)
    ensures forall v :: v in Ends(d) ==> Contains(d.street, v.id)
  {
  }

  /** `equals`: dwellings are the same when their names are. */
  predicate SameDwelling(a: Dwelling, b: Dwelling) {
    a.name == b.name
  }

  /** `hashCode`: the name's `String.hashCode`. */
  function DwellingHash(d: Dwelling): (h: int)
    ensures IsInt32(h)
  {
    StringHash(d.name)
  }

  /** Identity by name: an equivalence with agreeing hashes, blind to the
      street, the reference vertex and the offset, so two different places
      with one name are the same dwelling. */
  lemma SameDwellingIsByName(a: Dwelling, b: Dwelling, c: Dwelling)
    ensures SameDwelling(a, a)
    ensures SameDwelling(a, b) ==> SameDwelling(b, a)
    ensures SameDwelling(a, b) && SameDwelling(b, c) ==> SameDwelling(a, c)
    ensures SameDwelling(a, b) ==> DwellingHash(a) == DwellingHash(b)
    ensures a.name == b.name && a.offset != b.offset ==> SameDwelling(a, b) && a != b
  {
  }

  /** The range check happens only in the constructor, while the street's
      weight stays settable: after `setPoids` lowers the weight of the
      street a dwelling shares, its offset can exceed the weight and the
      distance from the other endpoint turns negative. */
  lemma RangeCanEscape()
    ensures
      var a := Vertex(1, "1");
      var b := Vertex(2, "2");
      var street: Edge := EdgeFields(a, b, 100.0, "", true, 1);
      var built := NewDwelling(Some("House"), Some(street), Some(a), 80.0);
      && built.Ok? && WellPlaced(built.value)
      && var after := built.value.(street := SetWeight(street, 50.0));
      && OnStreet(after) && !InRange(after)
      && DistanceFrom(after, b) == Fin(-30.0)
  {
    var a := Vertex(1, "1");
    var b := Vertex(2, "2");
    var street: Edge := EdgeFields(a, b, 100.0, "", true, 1);
    assert !Blank("House") by {
      assert "House"[0] == 'H';
    }
  }
}
