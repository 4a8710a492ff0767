/**
 * Geometry of the fitness rasteriser of src/core/Population.ts (and its
 * inlined copy in Population.ts): which grid cells a dot blackens. The
 * methods that write the grid live in class Populations.Population; this
 * module states, as functions, what they write.
 */
module Raster {
  import opened Dots
  import opened Images

  function Max(a: int, b: int): int { if a >= b then a else b }
  function Min(a: int, b: int): int { if a <= b then a else b }

  /** The arguments of one drawHorizontalLine(row, left, right) call. */
  datatype Span = Span(row: int, left: int, right: int)

  /**
   * Grid index q is written by the span once the span is clipped to the
   * canvas: its row lies in [0,height) and q lies between the clipped ends.
   */
  predicate Hits(s: Span, width: int, height: int, q: int) {
    && 0 <= s.row < height
    && s.row * width + Max(0, s.left) <= q <= s.row * width + Min(width - 1, s.right)
  }

  /** Some span of the list writes index q. */
  predicate Painted(spans: seq<Span>, width: int, height: int, q: int) {
    exists k :: 0 <= k < |spans| && Hits(spans[k], width, height, q)
  }

  /**
   * The spans drawCircle's midpoint loop draws from octant point (x, y) with
   * decision variable d onwards: each step moves x one column right, moves y
   * one row down when d >= 0, and draws four spans.
   */
  function OctantSpans(cx: int, cy: int, x: int, y: int, d: int): seq<Span>
    decreases y - x
  {
    if y <= x then []
    else
      var y' := if d < 0 then y else y - 1;
      var d' := if d < 0 then d + 2 * x + 3 else d + 2 * (x - y) + 5;
      var x' := x + 1;
      [Span(cy + y', cx - x', cx + x'), Span(cy - y', cx - x', cx + x'),
       Span(cy + x', cx - y', cx + y'), Span(cy - x', cx - y', cx + y')]
      + OctantSpans(cx, cy, x', y', d')
  }

  /** All spans drawCircle draws: the full centre row, then the midpoint loop from (0, r) with d = 1 - r. */
  function CircleSpans(cx: int, cy: int, r: int): seq<Span> {
    [Span(cy, cx - r, cx + r)] + OctantSpans(cx, cy, 0, r, 1 - r)
  }

  /** isOutsideCanvas: the box [x-r, x+r] x [y-r, y+r] misses the canvas. */
  predicate IsOutsideCanvas(x: int, y: int, radius: int, width: int, height: int) {
    x + radius < 0 || x - radius >= width || y + radius < 0 || y - radius >= height
  }

  /** drawDotToGrid: floor the dot, skip it when outside the canvas, else draw its circle. */
  predicate DotPaints(dot: Dot, width: int, height: int, q: int) {
    var cx, cy, r := dot.x.Floor, dot.y.Floor, dot.radius.Floor;
    !IsOutsideCanvas(cx, cy, r, width, height) && Painted(CircleSpans(cx, cy, r), width, height, q)
  }

  /** Some dot of the list blackens index q. */
  predicate Covered(dots: seq<Dot>, width: int, height: int, q: int) {
    exists k :: 0 <= k < |dots| && DotPaints(dots[k], width, height, q)
  }

  /** The grid after drawing all dots onto a fresh all-white (255) grid. */
  ghost function Render(dots: seq<Dot>, width: int, height: int): (g: seq<int>)
    requires 0 <= width && 0 <= height
    ensures |g| == width * height
    ensures forall q :: 0 <= q < |g| ==> g[q] == 0 || g[q] == 255
  {
    seq(width * height, q => if Covered(dots, width, height, q) then 0 else 255)
  }

  /** The bounding box [cx-r, cx+r] x [cy-r, cy+r] of a circle holds the span. */
  predicate InBox(s: Span, cx: int, cy: int, r: int) {
    cy - r <= s.row <= cy + r && cx - r <= s.left && s.right <= cx + r
  }

  lemma {:induction false} OctantInBox(cx: int, cy: int, x: int, y: int, d: int, r: int)
    requires 0 <= x && y <= r
    ensures forall k :: 0 <= k < |OctantSpans(cx, cy, x, y, d)| ==> InBox(OctantSpans(cx, cy, x, y, d)[k], cx, cy, r)
    decreases y - x
  {
    if y > x {
      var y' := if d < 0 then y else y - 1;
      var d' := if d < 0 then d + 2 * x + 3 else d + 2 * (x - y) + 5;
      OctantInBox(cx, cy, x + 1, y', d', r);
    }
  }

  /** Every span drawCircle draws lies inside the circle's bounding box. */
  lemma CircleInBox(cx: int, cy: int, r: int)
    requires 0 <= r
    ensures forall k :: 0 <= k < |CircleSpans(cx, cy, r)| ==> InBox(CircleSpans(cx, cy, r)[k], cx, cy, r)
  {
    OctantInBox(cx, cy, 0, r, 1 - r, r);
  }

  /**
   * The midpoint loop terminates with y - x as its measure, and when it
   * starts from (0, r) it takes at most r steps, four spans each.
   */
  lemma {:induction false} OctantLength(cx: int, cy: int, x: int, y: int, d: int)
    ensures y <= x ==> |OctantSpans(cx, cy, x, y, d)| == 0
    ensures x < y ==> 4 <= |OctantSpans(cx, cy, x, y, d)| <= 4 * (y - x)
    decreases y - x
  {
    if y > x {
      var y' := if d < 0 then y else y - 1;
      var d' := if d < 0 then d + 2 * x + 3 else d + 2 * (x - y) + 5;
      OctantLength(cx, cy, x + 1, y', d');
    }
  }

  /** Index y*width+x, seen as a pixel: which spans hit it, in pixel terms. */
  lemma HitsAt(s: Span, width: int, height: int, px: int, py: int)
    requires 0 <= px < width && 0 <= py < height
    ensures Hits(s, width, height, py * width + px)
        <==> py == s.row && Max(0, s.left) <= px <= Min(width - 1, s.right)
  {
    var lo, hi := Max(0, s.left), Min(width - 1, s.right);
    if py < s.row {
      MulMonotone(py, s.row - 1, width);
      assert (s.row - 1) * width + width == s.row * width;
      assert py * width + px < s.row * width + lo;
    } else if py > s.row {
      MulMonotone(s.row + 1, py, width);
      assert (s.row + 1) * width == s.row * width + width;
      assert py * width + px > s.row * width + hi;
    }
  }

  /**
   * Skipping a dot whose box misses the canvas is exact: such a circle would
   * not have written any cell.
   */
  lemma SkipIsExact(cx: int, cy: int, r: int, width: int, height: int, q: int)
    requires IsOutsideCanvas(cx, cy, r, width, height)
    ensures !Painted(CircleSpans(cx, cy, r), width, height, q)
  {
    var spans := CircleSpans(cx, cy, r);
    if r < 0 {
      OctantLength(cx, cy, 0, r, 1 - r);
      assert spans == [Span(cy, cx - r, cx + r)];
    } else {
      CircleInBox(cx, cy, r);
      forall k | 0 <= k < |spans| ensures !Hits(spans[k], width, height, q) {
        assert InBox(spans[k], cx, cy, r);
      }
    }
  }

  /**
   * Every pixel a dot blackens lies inside its floored bounding box
   * [cx-r, cx+r] x [cy-r, cy+r].
   */
  lemma PaintedInBox(dot: Dot, width: int, height: int, px: int, py: int)
    requires 0 <= px < width && 0 <= py < height
    requires DotPaints(dot, width, height, py * width + px)
    ensures dot.x.Floor - dot.radius.Floor <= px <= dot.x.Floor + dot.radius.Floor
    ensures dot.y.Floor - dot.radius.Floor <= py <= dot.y.Floor + dot.radius.Floor
  {
    var cx, cy, r := dot.x.Floor, dot.y.Floor, dot.radius.Floor;
    var spans := CircleSpans(cx, cy, r);
    var k :| 0 <= k < |spans| && Hits(spans[k], width, height, py * width + px);
    HitsAt(spans[k], width, height, px, py);
    if r < 0 {
      OctantLength(cx, cy, 0, r, 1 - r);
    } else {
      CircleInBox(cx, cy, r);
      assert InBox(spans[k], cx, cy, r);
    }
  }

  /**
   * A dot that is not skipped blackens its whole centre row
   * [cx-r, cx+r], clipped to the canvas.
   */
  lemma CentreRowPainted(dot: Dot, width: int, height: int, px: int)
    requires !IsOutsideCanvas(dot.x.Floor, dot.y.Floor, dot.radius.Floor, width, height)
    requires 0 <= dot.y.Floor < height
    requires 0 <= px < width && dot.x.Floor - dot.radius.Floor <= px <= dot.x.Floor + dot.radius.Floor
    ensures DotPaints(dot, width, height, dot.y.Floor * width + px)
  {
    var cx, cy, r := dot.x.Floor, dot.y.Floor, dot.radius.Floor;
    HitsAt(Span(cy, cx - r, cx + r), width, height, px, cy);
    assert CircleSpans(cx, cy, r)[0] == Span(cy, cx - r, cx + r);
  }

  /**
   * Only 0 is ever written, so the rendered grid does not depend on the
   * order in which the dots are drawn.
   */
  lemma RenderOrderIndependent(a: seq<Dot>, b: seq<Dot>, width: int, height: int)
    requires 0 <= width && 0 <= height
    requires multiset(a) == multiset(b)
    ensures Render(a, width, height) == Render(b, width, height)
  {
    forall q | 0 <= q < width * height
      ensures Covered(a, width, height, q) <==> Covered(b, width, height, q)
    {
      if Covered(a, width, height, q) {
        var k :| 0 <= k < |a| && DotPaints(a[k], width, height, q);
        assert a[k] in multiset(b);
        var k' :| 0 <= k' < |b| && b[k'] == a[k];
      }
      if Covered(b, width, height, q) {
        var k :| 0 <= k < |b| && DotPaints(b[k], width, height, q);
        assert b[k] in multiset(a);
        var k' :| 0 <= k' < |a| && a[k'] == b[k];
      }
    }
  }

  /** Appending one span adds exactly the cells that span hits. */
  lemma PaintedSnoc(spans: seq<Span>, s: Span, width: int, height: int, q: int)
    ensures Painted(spans + [s], width, height, q) <==> Painted(spans, width, height, q) || Hits(s, width, height, q)
  {
    var all := spans + [s];
    if Painted(spans, width, height, q) {
      var k :| 0 <= k < |spans| && Hits(spans[k], width, height, q);
      assert all[k] == spans[k];
    }
    if Hits(s, width, height, q) {
      assert all[|spans|] == s;
    }
    if Painted(all, width, height, q) {
      var k :| 0 <= k < |all| && Hits(all[k], width, height, q);
      if k < |spans| { assert all[k] == spans[k]; }
    }
  }

  /** Appending the four spans of one midpoint step adds exactly the cells they hit. */
  lemma PaintedSnoc4(spans: seq<Span>, s1: Span, s2: Span, s3: Span, s4: Span, width: int, height: int, q: int)
    ensures Painted(spans + [s1, s2, s3, s4], width, height, q) <==>
      Painted(spans, width, height, q) || Hits(s1, width, height, q) || Hits(s2, width, height, q)
      || Hits(s3, width, height, q) || Hits(s4, width, height, q)
  {
    PaintedSnoc(spans, s1, width, height, q);
    PaintedSnoc(spans + [s1], s2, width, height, q);
    PaintedSnoc(spans + [s1] + [s2], s3, width, height, q);
    PaintedSnoc(spans + [s1] + [s2] + [s3], s4, width, height, q);
    assert spans + [s1] + [s2] + [s3] + [s4] == spans + [s1, s2, s3, s4];
  }

  /** Drawing one more dot adds exactly the cells that dot paints. */
  lemma CoveredSnoc(dots: seq<Dot>, i: nat, width: int, height: int, q: int)
    requires i < |dots|
    ensures Covered(dots[..i + 1], width, height, q) <==> Covered(dots[..i], width, height, q) || DotPaints(dots[i], width, height, q)
  {
    var pre, all := dots[..i], dots[..i + 1];
    if Covered(pre, width, height, q) {
      var k :| 0 <= k < |pre| && DotPaints(pre[k], width, height, q);
      assert all[k] == pre[k];
    }
    if DotPaints(dots[i], width, height, q) {
      assert all[i] == dots[i];
    }
    if Covered(all, width, height, q) {
      var k :| 0 <= k < |all| && DotPaints(all[k], width, height, q);
      if k < i { assert all[k] == pre[k]; }
    }
  }
}
