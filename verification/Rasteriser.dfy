/** Integer drawing of the kernel's video driver (Kernel/Swift Extensions/Video.swift): axis-parallel lines, the
    filled circle and the outline of a rounded rectangle.  `draw(point:)` is the only access to the screen. */
module Rasteriser {

  type Position = (int, int)
  type Color = nat
  type Screen = map<Position, Color>

  /** `after` is `before` with the positions of `shape`, and no others, painted in `color`. */
  ghost predicate Painted(before: Screen, after: Screen, color: Color, shape: iset<Position>) {
    forall p: Position ::
      && (p in after <==> p in before || p in shape)
      && (p in after ==> after[p] == if p in shape then color else before[p])
  }

  lemma PaintedTwice(s: Screen, t: Screen, u: Screen, color: Color, first: iset<Position>, second: iset<Position>)
    requires Painted(s, t, color, first) && Painted(t, u, color, second)
    ensures Painted(s, u, color, first + second)
  {
  }

  lemma PaintedSame(s: Screen, t: Screen, color: Color, shape: iset<Position>, other: iset<Position>)
    requires Painted(s, t, color, shape) && forall p :: p in shape <==> p in other
    ensures Painted(s, t, color, other)
  {
    assert shape == other;
  }

  ghost function Box(x0: int, x1: int, y0: int, y1: int): iset<Position> {
    iset p: Position | x0 <= p.0 <= x1 && y0 <= p.1 <= y1
  }

  class Video {
    var pixels: Screen

    method DrawPoint(p: Position, color: Color)
      modifies this
      ensures Painted(old(pixels), pixels, color, iset{p})
    {
      pixels := pixels[p := color];
    }

    /** The two axis-parallel cases of `draw(line:thickness:)`.  The ranges of the source trap when they are
        empty, hence the ordered end points and the positive thickness. */
    method DrawLine(from: Position, to: Position, thickness: int, color: Color)
      requires thickness >= 1
      requires (from.0 == to.0 && from.1 <= to.1) || (from.1 == to.1 && from.0 <= to.0)
      modifies this
      ensures Painted(old(pixels), pixels, color,
                      if from.0 == to.0 then Box(to.0, to.0 + thickness - 1, from.1, to.1)
                      else Box(from.0, to.0, to.1, to.1 + thickness - 1))
    {
      if from.0 == to.0 {
        for y := from.1 to to.1 + 1
          invariant Painted(old(pixels), pixels, color, Box(to.0, to.0 + thickness - 1, from.1, y - 1))
        {
          ghost var row := pixels;
          for x := to.0 to to.0 + thickness
            invariant Painted(row, pixels, color, Box(to.0, x - 1, y, y))
          {
            ghost var before := pixels;
            DrawPoint((x, y), color);
            PaintedTwice(row, before, pixels, color, Box(to.0, x - 1, y, y), iset{(x, y)});
            PaintedSame(row, pixels, color, Box(to.0, x - 1, y, y) + iset{(x, y)}, Box(to.0, x, y, y));
          }
          PaintedTwice(old(pixels), row, pixels, color,
                       Box(to.0, to.0 + thickness - 1, from.1, y - 1), Box(to.0, to.0 + thickness - 1, y, y));
          PaintedSame(old(pixels), pixels, color,
                      Box(to.0, to.0 + thickness - 1, from.1, y - 1) + Box(to.0, to.0 + thickness - 1, y, y),
                      Box(to.0, to.0 + thickness - 1, from.1, y));
        }
      } else {
        for x := from.0 to to.0 + 1
          invariant Painted(old(pixels), pixels, color, Box(from.0, x - 1, to.1, to.1 + thickness - 1))
        {
          ghost var column := pixels;
          for y := to.1 to to.1 + thickness
            invariant Painted(column, pixels, color, Box(x, x, to.1, y - 1))
          {
            ghost var before := pixels;
            DrawPoint((x, y), color);
            PaintedTwice(column, before, pixels, color, Box(x, x, to.1, y - 1), iset{(x, y)});
            PaintedSame(column, pixels, color, Box(x, x, to.1, y - 1) + iset{(x, y)}, Box(x, x, to.1, y));
          }
          PaintedTwice(old(pixels), column, pixels, color,
                       Box(from.0, x - 1, to.1, to.1 + thickness - 1), Box(x, x, to.1, to.1 + thickness - 1));
          PaintedSame(old(pixels), pixels, color,
                      Box(from.0, x - 1, to.1, to.1 + thickness - 1) + Box(x, x, to.1, to.1 + thickness - 1),
                      Box(from.0, x, to.1, to.1 + thickness - 1));
        }
      }
    }

    /** A line of thickness 1. */
    method DrawSpan(from: Position, to: Position, color: Color)
      requires (from.0 == to.0 && from.1 <= to.1) || (from.1 == to.1 && from.0 <= to.0)
      modifies this
      ensures Painted(old(pixels), pixels, color, Box(from.0, to.0, from.1, to.1))
    {
      DrawLine(from, to, 1, color);
    }

    // ---------- the filled circle ----------

    /** The filled branch of `draw(circle:)`. */
    method DrawFilledCircle(center: Position, radius: int, color: Color)
      modifies this
      ensures Painted(old(pixels), pixels, color, DiscWithoutTips(center, radius))
    {
      var x, y := radius - 1, 0;
      var dx, dy := 1, 1;
      var err := dx - 2 * radius;
      ghost var xp := x;
      PaintedSame(pixels, pixels, color, iset{}, Scanned(center, radius, y, xp));
      while x >= y
        invariant x <= xp <= x + 1 && x < radius && 0 <= y && (radius >= 0 ==> y <= x + 2)
        invariant dy == 2 * y + 1 && dx == 2 * (radius - 1 - x) + 1
        invariant err == x * x + y * y - radius * radius
        invariant radius > 0 ==> Outermost(radius, x, y) && (x >= y ==> err <= 0)
        invariant radius <= 0 ==> x == radius - 1 && y == 0
        invariant Painted(old(pixels), pixels, color, Scanned(center, radius, y, xp))
        decreases x - y
      {
        DrawSpans(center, x, y, color);
        ScanOne(center, radius, x, y, xp);
        PaintedSame(old(pixels), pixels, color,
                    Scanned(center, radius, y, xp) + Spans(center, x, y), Scanned(center, radius, y + 1, x));
        xp := x;
        Advance(radius, x, y);
        assert (y + 1) * (y + 1) == y * y + 2 * y + 1 && (x - 1) * (x - 1) == x * x - 2 * x + 1;
        if err <= 0 {
          y := y + 1;
          err := err + dy;
          dy := dy + 2;
        }
        if err > 0 {
          x := x - 1;
          dx := dx + 2;
          err := err + dx - 2 * radius;
        }
      }
      ScanDone(center, radius, x, y, xp);
      PaintedSame(old(pixels), pixels, color, Scanned(center, radius, y, xp), DiscWithoutTips(center, radius));
    }

    // ---------- the rounded rectangle ----------

    /** The corner loop of `draw(roundedRectangle:)`: eight points per turn, or four spans between them when the
        rectangle is filled.  The range of an empty span traps, so the first ones, the narrowest, need their width. */
    method DrawCorners(at: Position, size: (int, int), radius: int, filled: bool, color: Color)
      returns (ghost arc: seq<int>)
      requires filled && radius > 0 ==> FillWidth(radius) <= size.0
      modifies this
      ensures IsArc(radius, arc)
      ensures Painted(old(pixels), pixels, color, Corners(at, size, radius, filled, arc))
    {
      hide Corners, ArcPoint, Decision, Painted;
      var f, ddFx, ddFy := 1 - radius, 1, -2 * radius;
      var xx, yy := 0, radius;
      arc := [];
      NothingDrawn(pixels, at, size, radius, filled, color);
      while xx < yy
        invariant 0 <= xx == |arc| && yy == Before(radius, arc, xx) && IsOpenArc(radius, arc)
        invariant arc != [] ==> radius > 0 && yy >= xx - 1 && (radius > 1 ==> yy >= 1)
        invariant forall k :: 0 <= k < |arc| - 1 ==> k + 1 < arc[k]
        invariant ddFx == 2 * xx + 1 && ddFy == -2 * yy && f == Decision(radius, xx, yy)
        invariant Painted(old(pixels), pixels, color, Corners(at, size, radius, filled, arc))
        decreases yy - xx
      {
        ghost var next := if f >= 0 then yy - 1 else yy;
        ArcStep(radius, arc, yy, next);
        DecisionSteps(radius, xx, yy);
        if f >= 0 {
          yy := yy - 1;
          ddFy := ddFy + 2;
          f := f + ddFy;
        }
        xx := xx + 1;
        ddFx := ddFx + 2;
        f := f + ddFx;
        DrawArcPoint(old(pixels), at, size, radius, filled, arc, xx, yy, color);
        arc := arc + [yy];
      }
    }

    /** The unfilled branch of `draw(roundedRectangle:)`.  Its straight edges need room for both corners. */
    method DrawRoundedRectangle(at: Position, size: (int, int), radius: int, color: Color) returns (ghost arc: seq<int>)
      requires 2 * radius <= size.0 && 2 * radius <= size.1
      modifies this
      ensures IsArc(radius, arc)
      ensures Painted(old(pixels), pixels, color, Corners(at, size, radius, false, arc) + Edges(at, size, radius))
    {
      arc := DrawCorners(at, size, radius, false, color);
      ghost var before := pixels;
      DrawEdges(at, size, radius, color);
      PaintedTwice(old(pixels), before, pixels, color, Corners(at, size, radius, false, arc), Edges(at, size, radius));
    }

    method DrawArcPoint(ghost start: Screen, at: Position, size: (int, int), radius: int, filled: bool,
                        ghost arc: seq<int>, xx: int, yy: int, color: Color)
      requires xx == |arc| + 1 && Painted(start, pixels, color, Corners(at, size, radius, filled, arc))
      requires filled ==> 2 * (radius - xx) <= size.0 && 2 * (radius - yy) <= size.0
      modifies this
      ensures Painted(start, pixels, color, Corners(at, size, radius, filled, arc + [yy]))
    {
      ghost var before, more := pixels, arc + [yy];
      if filled {
        DrawFourSpans(at, size, radius, xx, yy, color);
      } else {
        DrawEight(at, size, radius, xx, yy, color);
      }
      PaintedTwice(start, before, pixels, color, Corners(at, size, radius, filled, arc),
                   ArcImage(at, size, radius, filled, xx, yy));
      assert more[..|more| - 1] == arc;
    }

    method DrawFourSpans(at: Position, size: (int, int), radius: int, xx: int, yy: int, color: Color)
      requires 2 * (radius - xx) <= size.0 && 2 * (radius - yy) <= size.0
      modifies this
      ensures Painted(old(pixels), pixels, color, FourSpans(at, size, radius, xx, yy))
    {
      var (x0, y0, x1, y1) := (at.0 + radius, at.1 + radius, at.0 + size.0 - radius, at.1 + size.1 - radius);
      DrawSpan((x0 - xx, y1 + yy), (x1 + xx, y1 + yy), color);
      DrawSpan((x0 - yy, y1 + xx), (x1 + yy, y1 + xx), color);
      DrawSpan((x0 - xx, y0 - yy), (x1 + xx, y0 - yy), color);
      DrawSpan((x0 - yy, y0 - xx), (x1 + yy, y0 - xx), color);
    }

    method DrawEight(at: Position, size: (int, int), radius: int, xx: int, yy: int, color: Color)
      modifies this
      ensures Painted(old(pixels), pixels, color, Eight(at, size, radius, xx, yy))
    {
      var (x0, y0, x1, y1) := (at.0 + radius, at.1 + radius, at.0 + size.0 - radius, at.1 + size.1 - radius);
      DrawFour((x1 + xx, y1 + yy), (x0 - xx, y1 + yy), (x1 + yy, y1 + xx), (x0 - yy, y1 + xx), color);
      ghost var before := pixels;
      DrawFour((x1 + xx, y0 - yy), (x0 - xx, y0 - yy), (x1 + yy, y0 - xx), (x0 - yy, y0 - xx), color);
      PaintedTwice(old(pixels), before, pixels, color,
                   iset{(x1 + xx, y1 + yy), (x0 - xx, y1 + yy), (x1 + yy, y1 + xx), (x0 - yy, y1 + xx)},
                   iset{(x1 + xx, y0 - yy), (x0 - xx, y0 - yy), (x1 + yy, y0 - xx), (x0 - yy, y0 - xx)});
    }

    method DrawFour(p: Position, q: Position, r: Position, s: Position, color: Color)
      modifies this
      ensures Painted(old(pixels), pixels, color, iset{p, q, r, s})
    {
      DrawPoint(p, color);
      DrawPoint(q, color);
      DrawPoint(r, color);
      DrawPoint(s, color);
    }

    method DrawEdges(at: Position, size: (int, int), radius: int, color: Color)
      requires 2 * radius <= size.0 && 2 * radius <= size.1
      modifies this
      ensures Painted(old(pixels), pixels, color, Edges(at, size, radius))
    {
      var (right, bottom) := (at.0 + size.0, at.1 + size.1);
      DrawSpan((at.0 + radius, at.1), (right - radius, at.1), color);
      DrawSpan((at.0 + radius, bottom), (right - radius, bottom), color);
      DrawSpan((at.0, at.1 + radius), (at.0, bottom - radius), color);
      DrawSpan((right, at.1 + radius), (right, bottom - radius), color);
    }

    /** The four lines that one turn of the circle loop draws. */
    method DrawSpans(center: Position, x: int, y: int, color: Color)
      requires x >= 0 && y >= 0
      modifies this
      ensures Painted(old(pixels), pixels, color, Spans(center, x, y))
    {
      var (cx, cy) := center;
      DrawSpan((cx - x, cy + y), (cx + x, cy + y), color);
      ghost var first := pixels;
      DrawSpan((cx - y, cy + x), (cx + y, cy + x), color);
      PaintedTwice(old(pixels), first, pixels, color, Row(center, x, y), Row(center, y, x));
      ghost var second := pixels;
      DrawSpan((cx - x, cy - y), (cx + x, cy - y), color);
      PaintedTwice(old(pixels), second, pixels, color, Row(center, x, y) + Row(center, y, x), Row(center, x, -y));
      ghost var third := pixels;
      DrawSpan((cx - y, cy - x), (cx + y, cy - x), color);
      PaintedTwice(old(pixels), third, pixels, color,
                   Row(center, x, y) + Row(center, y, x) + Row(center, x, -y), Row(center, y, -x));
    }
  }

  // ---------- why the spans fill the disc ----------

  function Abs(a: int): nat {
    if a < 0 then -a else a
  }

  /** The points at or inside the circle, the four points where it meets the axes left out. */
  predicate InDisc(radius: int, a: nat, b: nat) {
    radius >= 0 && a * a + b * b <= radius * radius && !(a == 0 && b == radius) && !(b == 0 && a == radius)
  }

  ghost function DiscWithoutTips(center: Position, radius: int): iset<Position> {
    iset p: Position | InDisc(radius, Abs(p.0 - center.0), Abs(p.1 - center.1))
  }

  /** The points up to `half` to the left and right of the centre, `dy` rows from it. */
  ghost function Row(center: Position, half: int, dy: int): iset<Position> {
    Box(center.0 - half, center.0 + half, center.1 + dy, center.1 + dy)
  }

  ghost function Spans(center: Position, x: int, y: int): iset<Position> {
    Row(center, x, y) + Row(center, y, x) + Row(center, x, -y) + Row(center, y, -x)
  }

  /** What is drawn once rows 0 to y-1 are done: those rows of the disc, and the columns below y of the rows from
      `xp` on, where `xp` is the abscissa used last. */
  predicate InScan(radius: int, y: int, xp: int, a: nat, b: nat) {
    InDisc(radius, a, b) && (b < y || (a < y && b >= xp))
  }

  ghost function Scanned(center: Position, radius: int, y: int, xp: int): iset<Position> {
    iset p: Position | InScan(radius, y, xp, Abs(p.0 - center.0), Abs(p.1 - center.1))
  }

  /** No point further out than `x` belongs to row `y` of the disc. */
  predicate Outermost(radius: int, x: int, y: int) {
    if y == 0 then x == radius - 1 else (x + 1) * (x + 1) + y * y > radius * radius
  }

  lemma SquareMonotone(a: int, b: int)
    requires 0 <= a <= b
    ensures a * a <= b * b
  {
  }

  /** One turn of the loop adds row `y` and the part of rows `x` that row `y` reaches. */
  lemma ScanPoint(radius: int, x: int, y: int, xp: int, a: nat, b: nat)
    requires 0 <= y <= x < radius && x <= xp <= x + 1
    requires Outermost(radius, x, y) && x * x + y * y <= radius * radius
    ensures InScan(radius, y + 1, x, a, b) <==>
            InScan(radius, y, xp, a, b) || (b == y && a <= x) || (b == x && a <= y)
  {
    if b == y {
      RowEnds(radius, x, y, a);
    } else if b == x && a <= y {
      SquareMonotone(a, y);
    } else if a == y && b > x {
      RowEnds(radius, x, y, b);
    }
  }

  /** Row `y` of the disc ends at `x`. */
  lemma RowEnds(radius: int, x: int, y: int, a: nat)
    requires 0 <= y <= x < radius && Outermost(radius, x, y) && x * x + y * y <= radius * radius
    ensures InDisc(radius, a, y) <==> a <= x
    ensures InDisc(radius, y, a) <==> a <= x
  {
    if a <= x {
      SquareMonotone(a, x);
    } else {
      SquareMonotone(x + 1, a);
      if y == 0 && a > radius {
        SquareMonotone(radius + 1, a);
      }
    }
  }

  lemma ScanOne(center: Position, radius: int, x: int, y: int, xp: int)
    requires 0 <= y <= x < radius && x <= xp <= x + 1
    requires Outermost(radius, x, y) && x * x + y * y <= radius * radius
    ensures forall p :: p in Scanned(center, radius, y, xp) + Spans(center, x, y) <==>
      p in Scanned(center, radius, y + 1, x)
  {
    forall p: Position
      ensures p in Scanned(center, radius, y, xp) + Spans(center, x, y) <==> p in Scanned(center, radius, y + 1, x)
    {
      ScanPoint(radius, x, y, xp, Abs(p.0 - center.0), Abs(p.1 - center.1));
    }
  }

  /** The next row ends at the same abscissa or one nearer to the axis. */
  lemma Advance(radius: int, x: int, y: int)
    requires 0 <= y <= x < radius && Outermost(radius, x, y) && x * x + y * y <= radius * radius
    ensures var err := x * x + (y + 1) * (y + 1) - radius * radius;
      if err <= 0 then Outermost(radius, x, y + 1)
      else Outermost(radius, x - 1, y + 1) && (y < x ==> (x - 1) * (x - 1) + (y + 1) * (y + 1) <= radius * radius)
  {
  }

  /** When the loop ends, the octants meet: nothing of the disc is missing. */
  lemma NothingMissing(radius: int, x: int, y: int, xp: int, a: nat, b: nat)
    requires -1 <= x < y && xp <= x + 1 && Outermost(radius, x, y) && InDisc(radius, a, b) && y > 0
    ensures InScan(radius, y, xp, a, b)
  {
    if a >= y && b >= y {
      SquareMonotone(y, a);
      SquareMonotone(y, b);
      SquareMonotone(x + 1, y);
    }
  }

  lemma ScanDone(center: Position, radius: int, x: int, y: int, xp: int)
    requires 0 <= y && x < y && xp <= x + 1
    requires radius > 0 ==> -1 <= x && y > 0 && Outermost(radius, x, y)
    ensures forall p :: p in Scanned(center, radius, y, xp) <==> p in DiscWithoutTips(center, radius)
  {
    forall p: Position | p in DiscWithoutTips(center, radius) ensures p in Scanned(center, radius, y, xp) {
      var a, b := Abs(p.0 - center.0), Abs(p.1 - center.1);
      if radius > 0 {
        NothingMissing(radius, x, y, xp, a, b);
      } else if radius == 0 {
        EmptyDisc(a, b);
      }
    }
  }

  lemma EmptyDisc(a: nat, b: nat)
    ensures !InDisc(0, a, b)
  {
    SquareMonotone(if a > 0 then 1 else 0, a);
    SquareMonotone(if b > 0 then 1 else 0, b);
  }

  // ---------- the corners of a rounded rectangle ----------

  /** The point (xx, yy) of the corner arc misses the circle by at most yy in the square. */
  ghost predicate OnArc(radius: int, xx: int, yy: int) {
    -yy <= xx * xx + yy * yy - radius * radius <= yy
  }

  /** `arc[k]` is the ordinate at abscissa k+1.  The arc starts at the radius, comes down by at most one per
      abscissa, stays within its error bound, and ends at the first point that reaches the diagonal. */
  ghost predicate IsArc(radius: int, arc: seq<int>) {
    && (arc == [] <==> radius <= 0)
    && IsOpenArc(radius, arc)
    && (arc != [] ==> |arc| >= arc[|arc| - 1])
    && (forall k :: 0 <= k < |arc| - 1 ==> k + 1 < arc[k])
  }

  ghost predicate IsOpenArc(radius: int, arc: seq<int>) {
    forall k :: 0 <= k < |arc| ==> ArcPoint(radius, arc, k)
  }

  ghost predicate ArcPoint(radius: int, arc: seq<int>, k: nat)
    requires k < |arc|
  {
    && OnArc(radius, k + 1, arc[k])
    && (k + 1 <= arc[k] ==> (k + 1) * (k + 1) + arc[k] * arc[k] - radius * radius < arc[k])
    && Before(radius, arc, k) - 1 <= arc[k] <= Before(radius, arc, k)
  }

  ghost function Before(radius: int, arc: seq<int>, k: nat): int
    requires k <= |arc|
  {
    if k == 0 then radius else arc[k - 1]
  }

  /** These conditions leave no choice: there is one arc per radius. */
  lemma {:induction false} ArcUnique(radius: int, arc: seq<int>, other: seq<int>, n: nat)
    requires IsArc(radius, arc) && IsArc(radius, other) && n <= |arc|
    ensures n <= |other| && arc[..n] == other[..n]
    ensures n == |arc| ==> arc == other
  {
    if n > 0 {
      ArcUnique(radius, arc, other, n - 1);
      var k := n - 1;
      assert Before(radius, arc, k) == Before(radius, other, k) by {
        assert k > 0 ==> arc[..k][k - 1] == other[..k][k - 1];
      }
      assert k < |other|;
      assert ArcPoint(radius, arc, k) && ArcPoint(radius, other, k);
      OrdinateUnique(radius, n, Before(radius, arc, k), arc[k], other[k]);
      assert arc[..n] == arc[..k] + [arc[k]] && other[..n] == other[..k] + [other[k]];
    }
  }

  lemma OrdinateUnique(radius: int, xx: int, before: int, y: int, z: int)
    requires xx - 1 < before && before - 1 <= y <= before && before - 1 <= z <= before
    requires OnArc(radius, xx, y) && (xx <= y ==> xx * xx + y * y - radius * radius < y)
    requires OnArc(radius, xx, z) && (xx <= z ==> xx * xx + z * z - radius * radius < z)
    ensures y == z
  {
    assert (before - 1) * (before - 1) + (before - 1) == before * before - before;
  }

  /** The eight images of one arc point. */
  ghost function Eight(at: Position, size: (int, int), radius: int, xx: int, yy: int): iset<Position> {
    var (x0, y0, x1, y1) := (at.0 + radius, at.1 + radius, at.0 + size.0 - radius, at.1 + size.1 - radius);
    iset{(x1 + xx, y1 + yy), (x0 - xx, y1 + yy), (x1 + yy, y1 + xx), (x0 - yy, y1 + xx)}
    + iset{(x1 + xx, y0 - yy), (x0 - xx, y0 - yy), (x1 + yy, y0 - xx), (x0 - yy, y0 - xx)}
  }

  /** The width below which a span of the filled form is empty: offsets start at 1, and come down to 0 only for
      radius 1. */
  function FillWidth(radius: int): int {
    if radius == 1 then 2 else 2 * (radius - 1)
  }

  /** The spans between them, in the filled form. */
  ghost function FourSpans(at: Position, size: (int, int), radius: int, xx: int, yy: int): iset<Position> {
    var (x0, y0, x1, y1) := (at.0 + radius, at.1 + radius, at.0 + size.0 - radius, at.1 + size.1 - radius);
    Box(x0 - xx, x1 + xx, y1 + yy, y1 + yy) + Box(x0 - yy, x1 + yy, y1 + xx, y1 + xx)
    + Box(x0 - xx, x1 + xx, y0 - yy, y0 - yy) + Box(x0 - yy, x1 + yy, y0 - xx, y0 - xx)
  }

  ghost function ArcImage(at: Position, size: (int, int), radius: int, filled: bool, xx: int, yy: int): iset<Position> {
    if filled then FourSpans(at, size, radius, xx, yy) else Eight(at, size, radius, xx, yy)
  }

  ghost function Corners(at: Position, size: (int, int), radius: int, filled: bool, arc: seq<int>): iset<Position> {
    if arc == [] then iset{}
    else
      Corners(at, size, radius, filled, arc[..|arc| - 1]) + ArcImage(at, size, radius, filled, |arc|, arc[|arc| - 1])
  }

  ghost function Edges(at: Position, size: (int, int), radius: int): iset<Position> {
    var (right, bottom) := (at.0 + size.0, at.1 + size.1);
    Box(at.0 + radius, right - radius, at.1, at.1) + Box(at.0 + radius, right - radius, bottom, bottom)
    + Box(at.0, at.0, at.1 + radius, bottom - radius) + Box(right, right, at.1 + radius, bottom - radius)
  }

  // ---------- where the points of the corners lie ----------

  /** `p` lies `a` columns outside the centre of a left or right corner. */
  predicate ColumnsOut(at: Position, size: (int, int), radius: int, p: Position, a: int) {
    p.0 == at.0 + radius - a || p.0 == at.0 + size.0 - radius + a
  }

  /** `p` lies `b` rows outside the centre of an upper or lower corner. */
  predicate RowsOut(at: Position, size: (int, int), radius: int, p: Position, b: int) {
    p.1 == at.1 + radius - b || p.1 == at.1 + size.1 - radius + b
  }

  /** The images of an arc point lie, at every corner, its two offsets outside the centre, in either order. */
  lemma EightMeaning(at: Position, size: (int, int), radius: int, xx: int, yy: int, p: Position)
    ensures p in Eight(at, size, radius, xx, yy) <==>
            || (ColumnsOut(at, size, radius, p, xx) && RowsOut(at, size, radius, p, yy))
            || (ColumnsOut(at, size, radius, p, yy) && RowsOut(at, size, radius, p, xx))
  {
  }

  /** The spans reach, in the rows of these images, from the left ones to the right ones. */
  lemma FourSpansMeaning(at: Position, size: (int, int), radius: int, xx: int, yy: int, p: Position)
    ensures p in FourSpans(at, size, radius, xx, yy) <==>
            || (RowsOut(at, size, radius, p, yy) && at.0 + radius - xx <= p.0 <= at.0 + size.0 - radius + xx)
            || (RowsOut(at, size, radius, p, xx) && at.0 + radius - yy <= p.0 <= at.0 + size.0 - radius + yy)
  {
  }

  /** The corners are the images of all arc points, the first of which has offset 1. */
  lemma {:induction false} CornersMeaning(at: Position, size: (int, int), radius: int, filled: bool, arc: seq<int>,
                                          p: Position)
    ensures p in Corners(at, size, radius, filled, arc)
      <==>
        exists k :: 0 <= k < |arc| && p in ArcImage(at, size, radius, filled, k + 1, arc[k])
    decreases |arc|
  {
    hide ArcImage;
    if arc != [] {
      var n := |arc| - 1;
      CornersMeaning(at, size, radius, filled, arc[..n], p);
      if k :| 0 <= k < |arc| && p in ArcImage(at, size, radius, filled, k + 1, arc[k]) {
        assert k < n ==> arc[..n][k] == arc[k];
      }
      if k :| 0 <= k < n && p in ArcImage(at, size, radius, filled, k + 1, arc[..n][k]) {
        assert p in ArcImage(at, size, radius, filled, k + 1, arc[k]);
      }
    }
  }

  /** Unfilled corners consist of points, filled ones of spans. */
  lemma CornersOfKind(at: Position, size: (int, int), radius: int, arc: seq<int>, p: Position)
    ensures p in Corners(at, size, radius, false, arc)
      <==>
        exists k :: 0 <= k < |arc| && p in Eight(at, size, radius, k + 1, arc[k])
    ensures p in Corners(at, size, radius, true, arc)
      <==>
        exists k :: 0 <= k < |arc| && p in FourSpans(at, size, radius, k + 1, arc[k])
  {
    hide Corners, Eight, FourSpans;
    CornersMeaning(at, size, radius, false, arc, p);
    CornersMeaning(at, size, radius, true, arc, p);
    forall k | 0 <= k < |arc|
      ensures ArcImage(at, size, radius, false, k + 1, arc[k]) == Eight(at, size, radius, k + 1, arc[k])
      ensures ArcImage(at, size, radius, true, k + 1, arc[k]) == FourSpans(at, size, radius, k + 1, arc[k])
    {
    }
  }

  /** The width asked for is that of the narrower of the first two spans. */
  lemma FillWidthIsLeast(radius: int, arc: seq<int>)
    requires radius > 0 && IsArc(radius, arc)
    ensures arc != [] && FillWidth(radius) == 2 * (radius - if arc[0] < 1 then arc[0] else 1)
  {
    assert ArcPoint(radius, arc, 0);
  }

  /** The edges are the sides of the rectangle without the parts that the corners round off. */
  lemma EdgesMeaning(at: Position, size: (int, int), radius: int, p: Position)
    ensures p in Edges(at, size, radius) <==>
            || (p.1 - at.1 in {0, size.1} && radius <= p.0 - at.0 <= size.0 - radius)
            || (p.0 - at.0 in {0, size.0} && radius <= p.1 - at.1 <= size.1 - radius)
  {
  }

  lemma NothingDrawn(s: Screen, at: Position, size: (int, int), radius: int, filled: bool, color: Color)
    ensures Decision(radius, 0, radius) == 1 - radius && Painted(s, s, color, Corners(at, size, radius, filled, []))
  {
  }

  /** The quantity `f` whose sign decides whether the ordinate comes down. */
  ghost function Decision(radius: int, xx: int, yy: int): int {
    (xx + 1) * (xx + 1) + yy * yy - yy - radius * radius
  }

  lemma DecisionSteps(radius: int, xx: int, yy: int)
    ensures Decision(radius, xx + 1, yy) == Decision(radius, xx, yy) + 2 * xx + 3
    ensures Decision(radius, xx + 1, yy - 1) == Decision(radius, xx, yy) - 2 * yy + 2 * xx + 5
  {
  }

  lemma NextOrdinate(radius: int, xx: int, yy: int, next: int)
    requires radius > 0 && 0 <= xx < yy && -yy <= xx * xx + yy * yy - radius * radius < yy
    requires next == if Decision(radius, xx, yy) >= 0 then yy - 1 else yy
    ensures OnArc(radius, xx + 1, next)
    ensures xx + 1 <= next ==> (xx + 1) * (xx + 1) + next * next - radius * radius < next
  {
    assert (xx + 1) * (xx + 1) == xx * xx + 2 * xx + 1 && (yy - 1) * (yy - 1) == yy * yy - 2 * yy + 1;
  }

  /** One turn of the corner loop, from (xx, yy) to the next point. */
  lemma ArcStep(radius: int, arc: seq<int>, yy: int, next: int)
    requires radius > 0 && IsOpenArc(radius, arc) && yy == Before(radius, arc, |arc|) && |arc| < yy
    requires next == if Decision(radius, |arc|, yy) >= 0 then yy - 1 else yy
    ensures IsOpenArc(radius, arc + [next])
  {
    var more, n := arc + [next], |arc|;
    assert n > 0 ==> ArcPoint(radius, arc, n - 1);
    NextOrdinate(radius, n, yy, next);
    forall k | 0 <= k < |more| ensures ArcPoint(radius, more, k) {
      assert k < n ==> ArcPoint(radius, arc, k);
    }
  }
}
