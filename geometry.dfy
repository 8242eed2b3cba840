/** Points, rectangles and the pure reading of what Stroke's editing
    operations do to a sequence of points: the specification functions
    the Stroke class is proved against, and the lemmas about them. */
module Geometry {

  /** One sampled pen position; `z` is the pressure, or NO_PRESSURE. */
  datatype Point = Point(x: real, y: real, z: real)

  /** The sentinel pressure of a sample taken without pressure. */
  const NO_PRESSURE: real := -1.0

  /** The point getPoint hands out for an index outside the stroke. */
  const OUT_OF_RANGE_POINT: Point := Point(0.0, 0.0, NO_PRESSURE)

  /** An element's position and size, as the element base stores them. */
  datatype Rect = Rect(x: real, y: real, width: real, height: real)

  /** The box calcSize gives a stroke without points. */
  const EMPTY_BOX: Rect := Rect(0.0, 0.0, 0.0, 0.0)

  datatype Axis = X | Y

  function Coord(p: Point, a: Axis): real {
    if a == X then p.x else p.y
  }

  /** Picks the X or the Y member of a pair of per-axis parameters. */
  function Along(a: Axis, u: real, v: real): real {
    if a == X then u else v
  }

  /** Two point sequences that differ at most in pressure. */
  ghost predicate SameCoords(ps: seq<Point>, qs: seq<Point>) {
    |ps| == |qs| && forall i :: 0 <= i < |ps| ==> ps[i].x == qs[i].x && ps[i].y == qs[i].y
  }

  // ---------------------------------------------------------------------
  // Extremes, computed in the order of calcSize's scan: start from the
  // first point and fold in each later one with a strict comparison.

  function Min(pts: seq<Point>, a: Axis): real
    requires |pts| > 0
  {
    if |pts| == 1 then Coord(pts[0], a)
    else
      var m := Min(pts[..|pts| - 1], a);
      var q := Coord(pts[|pts| - 1], a);
      if m > q then q else m
  }

  function Max(pts: seq<Point>, a: Axis): real
    requires |pts| > 0
  {
    if |pts| == 1 then Coord(pts[0], a)
    else
      var m := Max(pts[..|pts| - 1], a);
      var q := Coord(pts[|pts| - 1], a);
      if m < q then q else m
  }

  /** The scan finds a least and a greatest coordinate, each attained by
      some point. */
  lemma {:induction false} ExtremesBound(pts: seq<Point>, a: Axis)
    requires |pts| > 0
    ensures forall i :: 0 <= i < |pts| ==> Min(pts, a) <= Coord(pts[i], a) <= Max(pts, a)
    ensures exists i :: 0 <= i < |pts| && Coord(pts[i], a) == Min(pts, a)
    ensures exists i :: 0 <= i < |pts| && Coord(pts[i], a) == Max(pts, a)
    decreases |pts|
  {
    var n := |pts|;
    if n > 1 {
      var init := pts[..n - 1];
      ExtremesBound(init, a);
      assert forall i :: 0 <= i < n - 1 ==> init[i] == pts[i];
      var i0 :| 0 <= i0 < n - 1 && Coord(init[i0], a) == Min(init, a);
      var i1 :| 0 <= i1 < n - 1 && Coord(init[i1], a) == Max(init, a);
      assert Coord(pts[if Min(init, a) > Coord(pts[n - 1], a) then n - 1 else i0], a) == Min(pts, a);
      assert Coord(pts[if Max(init, a) < Coord(pts[n - 1], a) then n - 1 else i1], a) == Max(pts, a);
    }
  }

  /** One step of calcSize's scan: folding in the point at `i`. */
  lemma ExtremesStep(pts: seq<Point>, i: int, a: Axis)
    requires 0 < i < |pts|
    ensures var m, q := Min(pts[..i], a), Coord(pts[i], a);
            Min(pts[..i + 1], a) == if m > q then q else m
    ensures var m, q := Max(pts[..i], a), Coord(pts[i], a);
            Max(pts[..i + 1], a) == if m < q then q else m
  {
    assert pts[..i + 1][..i] == pts[..i];
  }

  // ---------------------------------------------------------------------
  // The bounding box

  /** `p` lies inside `r` with calcSize's padding: 2 units from the left
      and top edges, 2 units plus the stroke width from the right and
      bottom edges. */
  predicate Covers(r: Rect, p: Point, strokeWidth: real) {
    r.x + 2.0 <= p.x && p.x + 2.0 + strokeWidth <= r.x + r.width &&
    r.y + 2.0 <= p.y && p.y + 2.0 + strokeWidth <= r.y + r.height
  }

  /** The box calcSize derives from the extremes of a non-empty stroke. */
  function PaddedBox(minX: real, maxX: real, minY: real, maxY: real, strokeWidth: real): Rect {
    Rect(minX - 2.0, minY - 2.0, maxX - minX + 4.0 + strokeWidth, maxY - minY + 4.0 + strokeWidth)
  }

  /** The bounding box calcSize computes: the zero box for a stroke
      without points, else the padded box around the extremes. */
  function StrokeBox(pts: seq<Point>, strokeWidth: real): Rect {
    if |pts| == 0 then EMPTY_BOX
    else PaddedBox(Min(pts, X), Max(pts, X), Min(pts, Y), Max(pts, Y), strokeWidth)
  }

  /** Every point lies inside the box with the padding. */
  lemma StrokeBoxCovers(pts: seq<Point>, strokeWidth: real)
    ensures forall i :: 0 <= i < |pts| ==> Covers(StrokeBox(pts, strokeWidth), pts[i], strokeWidth)
  {
    if |pts| > 0 {
      ExtremesBound(pts, X);
      ExtremesBound(pts, Y);
    }
  }

  /** No smaller box covers the points with the same padding. */
  lemma StrokeBoxIsSmallest(pts: seq<Point>, strokeWidth: real, r: Rect)
    requires |pts| > 0
    requires forall i :: 0 <= i < |pts| ==> Covers(r, pts[i], strokeWidth)
    ensures r.x <= StrokeBox(pts, strokeWidth).x && r.y <= StrokeBox(pts, strokeWidth).y
    ensures StrokeBox(pts, strokeWidth).x + StrokeBox(pts, strokeWidth).width <= r.x + r.width
    ensures StrokeBox(pts, strokeWidth).y + StrokeBox(pts, strokeWidth).height <= r.y + r.height
  {
    ExtremesBound(pts, X);
    ExtremesBound(pts, Y);
    var i0 :| 0 <= i0 < |pts| && pts[i0].x == Min(pts, X);
    var i1 :| 0 <= i1 < |pts| && pts[i1].x == Max(pts, X);
    var j0 :| 0 <= j0 < |pts| && pts[j0].y == Min(pts, Y);
    var j1 :| 0 <= j1 < |pts| && pts[j1].y == Max(pts, Y);
    assert Covers(r, pts[i0], strokeWidth) && Covers(r, pts[i1], strokeWidth);
    assert Covers(r, pts[j0], strokeWidth) && Covers(r, pts[j1], strokeWidth);
  }

  /** The extremes, and so the box, depend only on the coordinates. */
  lemma {:induction false} SameCoordsSameExtremes(ps: seq<Point>, qs: seq<Point>, a: Axis)
    requires |ps| > 0 && SameCoords(ps, qs)
    ensures Min(ps, a) == Min(qs, a) && Max(ps, a) == Max(qs, a)
    decreases |ps|
  {
    if |ps| > 1 {
      var n := |ps|;
      assert SameCoords(ps[..n - 1], qs[..n - 1]);
      SameCoordsSameExtremes(ps[..n - 1], qs[..n - 1], a);
      assert Coord(ps[n - 1], a) == Coord(qs[n - 1], a);
    }
  }

  lemma SameCoordsSameBox(ps: seq<Point>, qs: seq<Point>, strokeWidth: real)
    requires SameCoords(ps, qs)
    ensures StrokeBox(ps, strokeWidth) == StrokeBox(qs, strokeWidth)
  {
    if |ps| > 0 {
      SameCoordsSameExtremes(ps, qs, X);
      SameCoordsSameExtremes(ps, qs, Y);
    }
  }

  // ---------------------------------------------------------------------
  // move

  function MovePoint(p: Point, dx: real, dy: real): Point {
    p.(x := p.x + dx, y := p.y + dy)
  }

  /** Every point shifted by (dx, dy), pressure kept. */
  function Translated(pts: seq<Point>, dx: real, dy: real): seq<Point> {
    seq(|pts|, i requires 0 <= i < |pts| => MovePoint(pts[i], dx, dy))
  }

  /** Moving back by the opposite offset restores the points. */
  lemma TranslatedInverse(pts: seq<Point>, dx: real, dy: real)
    ensures Translated(Translated(pts, dx, dy), -dx, -dy) == pts
  {
    var back := Translated(Translated(pts, dx, dy), -dx, -dy);
    assert forall i :: 0 <= i < |pts| ==> back[i] == pts[i];
  }

  lemma {:induction false} TranslatedMin(pts: seq<Point>, dx: real, dy: real, a: Axis)
    requires |pts| > 0
    ensures Min(Translated(pts, dx, dy), a) == Min(pts, a) + Along(a, dx, dy)
    decreases |pts|
  {
    var n, t := |pts|, Translated(pts, dx, dy);
    if n > 1 {
      assert t[..n - 1] == Translated(pts[..n - 1], dx, dy);
      TranslatedMin(pts[..n - 1], dx, dy, a);
    }
  }

  lemma {:induction false} TranslatedMax(pts: seq<Point>, dx: real, dy: real, a: Axis)
    requires |pts| > 0
    ensures Max(Translated(pts, dx, dy), a) == Max(pts, a) + Along(a, dx, dy)
    decreases |pts|
  {
    var n, t := |pts|, Translated(pts, dx, dy);
    if n > 1 {
      assert t[..n - 1] == Translated(pts[..n - 1], dx, dy);
      TranslatedMax(pts[..n - 1], dx, dy, a);
    }
  }

  /** Moving a stroke shifts its bounding box by exactly (dx, dy) and
      keeps its size; an empty stroke keeps the zero box. */
  lemma TranslatedBox(pts: seq<Point>, dx: real, dy: real, strokeWidth: real)
    ensures var b := StrokeBox(pts, strokeWidth);
            StrokeBox(Translated(pts, dx, dy), strokeWidth) ==
              if |pts| == 0 then EMPTY_BOX else b.(x := b.x + dx, y := b.y + dy)
  {
    if |pts| > 0 {
      TranslatedMin(pts, dx, dy, X);
      TranslatedMax(pts, dx, dy, X);
      TranslatedMin(pts, dx, dy, Y);
      TranslatedMax(pts, dx, dy, Y);
    }
  }

  // ---------------------------------------------------------------------
  // scale

  /** The factor scale applies to pressure and to the stroke width: the
      average of the two axis factors. */
  function PressureFactor(fx: real, fy: real): real {
    (fx + fy) / 2.0
  }

  /** A coordinate `c` scaled by `f` about the origin `o`. */
  function ScaleCoord(c: real, o: real, f: real): real { (c - o) * f + o }

  /** A length or a pressure `e` multiplied by the factor `f`. */
  function Stretch(e: real, f: real): real { e * f }

  function ScalePoint(p: Point, x0: real, y0: real, fx: real, fy: real): Point {
    Point(ScaleCoord(p.x, x0, fx), ScaleCoord(p.y, y0, fy),
          if p.z != NO_PRESSURE then Stretch(p.z, PressureFactor(fx, fy)) else p.z)
  }

  /** Every point scaled about (x0, y0) by fx and fy, and its pressure, when
      it has one, by the average factor. */
  function Scaled(pts: seq<Point>, x0: real, y0: real, fx: real, fy: real): seq<Point> {
    seq(|pts|, i requires 0 <= i < |pts| => ScalePoint(pts[i], x0, y0, fx, fy))
  }

  lemma MulMonotone(a: real, b: real, f: real)
    requires a <= b && 0.0 <= f
    ensures a * f <= b * f
  {
    assert (b - a) * f >= 0.0;
  }

  lemma ScaleCoordMonotone(c: real, d: real, o: real, f: real)
    requires c <= d && 0.0 <= f
    ensures ScaleCoord(c, o, f) <= ScaleCoord(d, o, f)
  {
    MulMonotone(c - o, d - o, f);
  }

  lemma ScaledCoord(p: Point, x0: real, y0: real, fx: real, fy: real, a: Axis)
    ensures Coord(ScalePoint(p, x0, y0, fx, fy), a) == ScaleCoord(Coord(p, a), Along(a, x0, y0), Along(a, fx, fy))
  {
  }

  lemma {:induction false} ScaledMin(pts: seq<Point>, x0: real, y0: real, fx: real, fy: real, a: Axis)
    requires |pts| > 0 && Along(a, fx, fy) >= 0.0
    ensures Min(Scaled(pts, x0, y0, fx, fy), a) == ScaleCoord(Min(pts, a), Along(a, x0, y0), Along(a, fx, fy))
    decreases |pts|
  {
    var n, t := |pts|, Scaled(pts, x0, y0, fx, fy);
    var o, f := Along(a, x0, y0), Along(a, fx, fy);
    ScaledCoord(pts[n - 1], x0, y0, fx, fy, a);
    if n > 1 {
      assert t[..n - 1] == Scaled(pts[..n - 1], x0, y0, fx, fy);
      ScaledMin(pts[..n - 1], x0, y0, fx, fy, a);
      var m, q := Min(pts[..n - 1], a), Coord(pts[n - 1], a);
      if m <= q { ScaleCoordMonotone(m, q, o, f); } else { ScaleCoordMonotone(q, m, o, f); }
    }
  }

  lemma {:induction false} ScaledMax(pts: seq<Point>, x0: real, y0: real, fx: real, fy: real, a: Axis)
    requires |pts| > 0 && Along(a, fx, fy) >= 0.0
    ensures Max(Scaled(pts, x0, y0, fx, fy), a) == ScaleCoord(Max(pts, a), Along(a, x0, y0), Along(a, fx, fy))
    decreases |pts|
  {
    var n, t := |pts|, Scaled(pts, x0, y0, fx, fy);
    var o, f := Along(a, x0, y0), Along(a, fx, fy);
    ScaledCoord(pts[n - 1], x0, y0, fx, fy, a);
    if n > 1 {
      assert t[..n - 1] == Scaled(pts[..n - 1], x0, y0, fx, fy);
      ScaledMax(pts[..n - 1], x0, y0, fx, fy, a);
      var m, q := Max(pts[..n - 1], a), Coord(pts[n - 1], a);
      if m <= q { ScaleCoordMonotone(m, q, o, f); } else { ScaleCoordMonotone(q, m, o, f); }
    }
  }

  lemma ScaleCoordDifference(c: real, d: real, o: real, f: real)
    ensures ScaleCoord(d, o, f) - ScaleCoord(c, o, f) == Stretch(d - c, f)
  {
  }

  /** For non-negative factors, scaling maps the unpadded corner of the box
      like any point and stretches its unpadded extent by the factors; the
      padding is computed afresh around the stroke width `newWidth` the
      scaled stroke has (scale gives it `strokeWidth * PressureFactor(fx, fy)`). */
  lemma ScaledBox(pts: seq<Point>, x0: real, y0: real, fx: real, fy: real, strokeWidth: real, newWidth: real)
    requires |pts| > 0 && fx >= 0.0 && fy >= 0.0
    ensures var b, c := StrokeBox(pts, strokeWidth), StrokeBox(Scaled(pts, x0, y0, fx, fy), newWidth);
            c.x + 2.0 == ScaleCoord(b.x + 2.0, x0, fx) &&
            c.y + 2.0 == ScaleCoord(b.y + 2.0, y0, fy) &&
            c.width - 4.0 - newWidth == Stretch(b.width - 4.0 - strokeWidth, fx) &&
            c.height - 4.0 - newWidth == Stretch(b.height - 4.0 - strokeWidth, fy)
  {
    ScaledMin(pts, x0, y0, fx, fy, X);
    ScaledMax(pts, x0, y0, fx, fy, X);
    ScaledMin(pts, x0, y0, fx, fy, Y);
    ScaledMax(pts, x0, y0, fx, fy, Y);
    ScaleCoordDifference(Min(pts, X), Max(pts, X), x0, fx);
    ScaleCoordDifference(Min(pts, Y), Max(pts, Y), y0, fy);
  }

  // ---------------------------------------------------------------------
  // Pressure

  /** A stroke has pressure when its first sample has one. */
  predicate HasPressureOf(pts: seq<Point>) {
    |pts| > 0 && pts[0].z != NO_PRESSURE
  }

  function Pressures(pts: seq<Point>): seq<real> {
    seq(|pts|, i requires 0 <= i < |pts| => pts[i].z)
  }

  /** Every pressure, the sentinel included, multiplied by `factor`. */
  function PressureScaled(pts: seq<Point>, factor: real): seq<Point> {
    seq(|pts|, i requires 0 <= i < |pts| => pts[i].(z := pts[i].z * factor))
  }

  /** Every pressure replaced by the sentinel. */
  function PressureCleared(pts: seq<Point>): seq<Point> {
    seq(|pts|, i requires 0 <= i < |pts| => pts[i].(z := NO_PRESSURE))
  }

  /** The pressures replaced positionally by the first |pts| values of `data`. */
  function WithPressures(pts: seq<Point>, data: seq<real>): seq<Point>
    requires |pts| <= |data|
  {
    seq(|pts|, i requires 0 <= i < |pts| => pts[i].(z := data[i]))
  }

  /** Pressure edits move no point, so they leave the bounding box as it
      was: this is why none of them clears the size cache. */
  lemma PressureEditsKeepBox(pts: seq<Point>, factor: real, data: seq<real>, pressure: real, strokeWidth: real)
    requires |pts| <= |data|
    ensures StrokeBox(PressureScaled(pts, factor), strokeWidth) == StrokeBox(pts, strokeWidth)
    ensures StrokeBox(PressureCleared(pts), strokeWidth) == StrokeBox(pts, strokeWidth)
    ensures StrokeBox(WithPressures(pts, data), strokeWidth) == StrokeBox(pts, strokeWidth)
    ensures |pts| > 0 ==>
              StrokeBox(pts[|pts| - 1 := pts[|pts| - 1].(z := pressure)], strokeWidth) == StrokeBox(pts, strokeWidth)
  {
    SameCoordsSameBox(PressureScaled(pts, factor), pts, strokeWidth);
    SameCoordsSameBox(PressureCleared(pts), pts, strokeWidth);
    SameCoordsSameBox(WithPressures(pts, data), pts, strokeWidth);
    if |pts| > 0 {
      SameCoordsSameBox(pts[|pts| - 1 := pts[|pts| - 1].(z := pressure)], pts, strokeWidth);
    }
  }

  /** Reading the pressures back after setting them gives the values set. */
  lemma WithPressuresReadBack(pts: seq<Point>, data: seq<real>)
    requires |pts| <= |data|
    ensures Pressures(WithPressures(pts, data)) == data[..|pts|]
    ensures SameCoords(WithPressures(pts, data), pts)
  {
    assert forall i :: 0 <= i < |pts| ==> Pressures(WithPressures(pts, data))[i] == data[i];
  }

  /** Two pressure scalings compose into one by the product of factors. */
  lemma PressureScaledTwice(pts: seq<Point>, f: real, g: real)
    ensures PressureScaled(PressureScaled(pts, f), g) == PressureScaled(pts, f * g)
  {
    var lhs := PressureScaled(PressureScaled(pts, f), g);
    forall i | 0 <= i < |pts| ensures lhs[i] == PressureScaled(pts, f * g)[i] {
      assert pts[i].z * f * g == pts[i].z * (f * g);
    }
  }

  /** After clearing, no pressure is left, and clearing again changes nothing. */
  lemma PressureClearedHasNone(pts: seq<Point>)
    ensures !HasPressureOf(PressureCleared(pts))
    ensures PressureCleared(PressureCleared(pts)) == PressureCleared(pts)
    ensures SameCoords(PressureCleared(pts), pts)
  {
  }
}
