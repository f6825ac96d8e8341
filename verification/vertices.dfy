/** Intersections (`Sommet`): an immutable id plus a changeable display name. */
module Vertices {
  import JavaHash

  /** A vertex id. The source keys vertices by strings, compares them for
      equality, hashes them and uses them as default names. Ids are drawn
      from the integers here, and `IdText` is the decimal numeral of an id,
      so a string id such as "A" is represented by a number. */
  type Id = int

  /** The decimal text of an id (with a leading '-' below zero). */
  function IdText(id: Id): (s: string)
    ensures |s| > 0
  {
    if id < 0 then "-" + Digits(-id) else Digits(id)
  }

  function Digits(n: nat): (s: string)
    ensures |s| > 0
  {
    var digit := [('0' as int + n % 10) as char];
    if n < 10 then digit else Digits(n / 10) + digit
  }

  datatype Vertex = Vertex(id: Id, name: string)

  /** The one-argument constructor: the name defaults to the id. */
  function NewVertex(id: Id): (v: Vertex)
    ensures v.id == id && v.name == IdText(id)
  {
    Vertex(id, IdText(id))
  }

  /** `equals`: two vertices are the same intersection iff their ids agree;
      the name plays no part. */
  predicate SameVertex(a: Vertex, b: Vertex) {
    a.id == b.id
  }

  /** `setNom`: replaces the display name; the id never changes. */
  function SetName(v: Vertex, name: string): (r: Vertex)
    ensures SameVertex(r, v) && r.id == v.id
    ensures r.name == name
  {
    v.(name := name)
  }

  /** `hashCode`, which hashes the id's text alone. */
  function HashCode(v: Vertex): (h: int)
    ensures JavaHash.IsInt32(h)
  {
    JavaHash.ObjectsHash1(IdText(v.id))
  }

  /** Java's value on one id: `Objects.hash("1")` is 31 * 1 plus the code of
      the character '1', 49, whatever the vertex is called. */
  lemma HashCodeOfOne(n: string)
    ensures HashCode(Vertex(1, n)) == 80
  {
    assert IdText(1) == "1";
    assert JavaHash.StringHash("1") == 49 by {
      assert "1"[..0] == [];
    }
  }

  /** Vertex equality is an equivalence that ignores names, and the hash
      agrees with it. */
  lemma SameVertexIsIdentityById(a: Vertex, b: Vertex, c: Vertex, n: string)
    ensures SameVertex(a, a)
    ensures SameVertex(a, b) <==> SameVertex(b, a)
    ensures SameVertex(a, b) && SameVertex(b, c) ==> SameVertex(a, c)
    ensures SameVertex(a, b) ==> HashCode(a) == HashCode(b)
    ensures SameVertex(a, SetName(a, n)) && HashCode(SetName(a, n)) == HashCode(a)
  {
  }
}
