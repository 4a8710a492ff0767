/** A dot of the stippling (src/core/Dot.ts): a centre and a radius. */
module Dots {
  /** Coordinates and radius are JavaScript numbers, modelled as reals. */
  datatype Dot = Dot(x: real, y: real, radius: real)

  /**
   * clone(): a copy with the same three fields. Dots are values here, so a
   * copy shares no state with its original.
   */
  function Clone(d: Dot): (c: Dot)
    ensures c.x == d.x && c.y == d.y && c.radius == d.radius
  {
    Dot(d.x, d.y, d.radius)
  }
}
