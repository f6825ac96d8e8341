/** Java's 32-bit hash arithmetic, written out with explicit wrap-around. */
module JavaHash {

  const TwoTo31: int := 0x8000_0000
  const TwoTo32: int := 0x1_0000_0000

  predicate IsInt32(x: int) {
    -TwoTo31 <= x < TwoTo31
  }

  /** Two's-complement truncation of an unbounded integer to a Java `int`. */
  function Wrap32(x: int): (r: int)
    ensures IsInt32(r)
    ensures (r - x) % TwoTo32 == 0
    ensures IsInt32(x) ==> r == x
  {
    (x + TwoTo31) % TwoTo32 - TwoTo31
  }

  /** `String.hashCode`: h = 31 * h + c over the characters, in `int`. */
  function StringHash(s: string): (h: int)
    ensures IsInt32(h)
  {
    if |s| == 0 then 0
    else Wrap32(31 * StringHash(s[..|s| - 1]) + s[|s| - 1] as int)
  }

  /** `Objects.hash(x)` for a single string argument: 31 * 1 + x.hashCode(). */
  function ObjectsHash1(s: string): (h: int)
    ensures IsInt32(h)
  {
    Wrap32(31 + StringHash(s))
  }
}
