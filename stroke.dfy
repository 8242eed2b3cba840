/** The Stroke element: a hand-managed growable buffer of points with the
    cached bounding box of the element base, and the editing operations
    that rewrite the buffer in place. */
module Strokes {
  import opened Wrappers
  import opened Geometry

  /** The kind of tool that drew a stroke. */
  datatype StrokeTool = Pen | Eraser | Highlighter

  /** The partial-erase state an eraser tool may attach to a stroke; the
      stroke only holds the reference. */
  class EraseableStroke { }

  /** The fixed number of slots addPoint adds when the buffer is full. */
  const POINT_CHUNK: int := 100

  /** The capacity addPoint leaves: one more chunk exactly when the buffer
      is full, the old capacity otherwise. */
  function GrownCapacity(count: int, capacity: int): (c: int)
    ensures c == capacity || c == capacity + POINT_CHUNK
    ensures c > count || count > capacity
  {
    if count >= capacity then capacity + POINT_CHUNK else capacity
  }

  /** The capacity of a new stroke after `n` calls of addPoint. */
  function CapacityAfterAppends(n: nat): int {
    if n == 0 then 0 else GrownCapacity(n - 1, CapacityAfterAppends(n - 1))
  }

  /** Growth by chunks: after `n` appends to a new stroke the capacity is
      the least multiple of the chunk that holds `n` points, so fewer than
      one chunk of slots is ever unused. */
  lemma {:induction false} CapacityAfterAppendsIsRoundedUp(n: nat)
    ensures n <= CapacityAfterAppends(n) < n + POINT_CHUNK
    ensures CapacityAfterAppends(n) % POINT_CHUNK == 0
  {
    if n > 0 {
      CapacityAfterAppendsIsRoundedUp(n - 1);
    }
  }

  class Stroke {
    /** The allocated buffer; its first pointCount slots are the stroke. */
    var points: array<Point>
    var pointCount: int
    var pointAllocCount: int
    /** Whether the element's box below is up to date. */
    var sizeCalculated: bool

    var width: real
    var toolType: StrokeTool
    var color: int
    var eraseable: EraseableStroke?

    // The element base's position and size.
    var boxX: real
    var boxY: real
    var boxWidth: real
    var boxHeight: real

    /** The buffer invariant: the capacity is the array's length and the
        used slots fit in it. It does not say that the buffer is private to
        this stroke: every method that changes one returns it fresh, but two
        strokes are not known to hold different arrays. */
    ghost predicate Valid()
      reads this
    {
      points.Length == pointAllocCount && 0 <= pointCount <= pointAllocCount
    }

    /** The points of the stroke, in drawing order. */
    ghost function Points(): seq<Point>
      reads this, points
      requires Valid()
    {
      points[..pointCount]
    }

    function Box(): Rect
      reads this
    {
      Rect(boxX, boxY, boxWidth, boxHeight)
    }

    /** A pen stroke without points, without a buffer and of width 0. */
    constructor ()
      ensures Valid() && fresh(points) && Points() == [] && pointAllocCount == 0
      ensures width == 0.0 && toolType == Pen && eraseable == null && !sizeCalculated
    {
      width := 0.0;
      pointAllocCount := 0;
      pointCount := 0;
      points := new Point[0];
      toolType := Pen;
      eraseable := null;
      color := 0;
      sizeCalculated := false;
      boxX, boxY, boxWidth, boxHeight := 0.0, 0.0, 0.0, 0.0;
    }

    /** Reallocates the buffer to `size` slots, keeping the points. */
    method AllocPointSize(size: int)
      requires Valid() && pointCount <= size
      modifies this`points, this`pointAllocCount
      ensures Valid() && fresh(points)
      ensures pointAllocCount == size && Points() == old(Points())
    {
      var previous := points;
      // the slots past the old buffer hold unspecified values
      points := new Point[size](i reads previous => if 0 <= i < previous.Length then previous[i] else Point(0.0, 0.0, 0.0));
      pointAllocCount := size;
    }

    method AddPoint(p: Point)
      requires Valid()
      modifies this`points, this`pointAllocCount, this`pointCount, this`sizeCalculated, points
      ensures Valid() && (points == old(points) || fresh(points))
      ensures Points() == old(Points()) + [p]
      ensures pointAllocCount == GrownCapacity(old(pointCount), old(pointAllocCount))
      ensures !sizeCalculated
    {
      if pointCount >= pointAllocCount {
        AllocPointSize(pointAllocCount + POINT_CHUNK);
      }
      points[pointCount] := p;
      pointCount := pointCount + 1;
      sizeCalculated := false;
    }

    /** Shrinks the buffer to exactly the points in use. */
    method FreeUnusedPointItems()
      requires Valid()
      modifies this`points, this`pointAllocCount
      ensures Valid() && (points == old(points) || fresh(points))
      ensures pointAllocCount == pointCount && Points() == old(Points())
      ensures old(pointAllocCount) == old(pointCount) ==> points == old(points)
    {
      if pointAllocCount == pointCount {
        return;
      }
      AllocPointSize(pointCount);
    }

    /** Drops the points from `index` on; the capacity stays. */
    method DeletePointsFrom(index: int)
      requires Valid() && 0 <= index
      modifies this`pointCount
      ensures Valid()
      ensures Points() == if old(pointCount) <= index then old(Points()) else old(Points())[..index]
    {
      if pointCount <= index {
        return;
      }
      pointCount := index;
    }

    /** Removes the point at `index`, shifting the later ones down; an index
        outside the points changes nothing. */
    method DeletePoint(index: int)
      requires Valid()
      modifies this`pointCount, points
      ensures Valid()
      ensures Points() == if index < 0 || old(pointCount) <= index then old(Points())
                          else old(Points())[..index] + old(Points())[index + 1..]
    {
      if index < 0 || pointCount <= index {
        return;
      }
      // Slots before `index` keep their point; from `index` on each slot
      // takes its successor's. The last live slot is dropped below, so
      // the loop stops before it and reads only live slots.
      for i := 0 to pointCount - 1
        modifies points
        invariant forall j :: 0 <= j < i ==> points[j] == if j < index then old(points[j]) else old(points[j + 1])
        invariant forall j :: i <= j < points.Length ==> points[j] == old(points[j])
      {
        if index <= i {
          points[i] := points[i + 1];
        }
      }
      pointCount := pointCount - 1;
      ghost var kept := old(Points())[..index] + old(Points())[index + 1..];
      forall j | 0 <= j < pointCount
        ensures Points()[j] == kept[j]
      {
        if j < index {
          assert kept[j] == old(points[j]);
        } else {
          assert kept[j] == old(points[j + 1]);
        }
      }
    }

    /** The point at `index`, or the zero point without pressure and an
        out-of-range report when there is none. */
    method GetPoint(index: int) returns (p: Point, outOfRange: bool)
      requires Valid()
      ensures outOfRange <==> !(0 <= index < |Points()|)
      ensures p == if outOfRange then OUT_OF_RANGE_POINT else Points()[index]
    {
      if index < 0 || index >= pointCount {
        return OUT_OF_RANGE_POINT, true;
      }
      return points[index], false;
    }

    /** Moves the end of the stroke still being drawn to (newX, newY). */
    method SetLastPoint(newX: real, newY: real)
      requires Valid()
      modifies points, this`sizeCalculated
      ensures Valid()
      ensures var n := old(pointCount);
              if n > 0 then
                Points() == old(Points())[n - 1 := old(Points())[n - 1].(x := newX, y := newY)] && !sizeCalculated
              else
                Points() == old(Points()) && sizeCalculated == old(sizeCalculated)
    {
      if pointCount > 0 {
        var p := points[pointCount - 1];
        points[pointCount - 1] := p.(x := newX, y := newY);
        sizeCalculated := false;
      }
    }

    method Move(dx: real, dy: real)
      requires Valid()
      modifies points, this`sizeCalculated
      ensures Valid()
      ensures Points() == Translated(old(Points()), dx, dy) && !sizeCalculated
    {
      for i := 0 to pointCount
        modifies points
        invariant forall j :: 0 <= j < i ==> points[j] == MovePoint(old(points[j]), dx, dy)
        invariant forall j :: i <= j < points.Length ==> points[j] == old(points[j])
      {
        var p := points[i];
        points[i] := p.(x := p.x + dx, y := p.y + dy);
      }
      sizeCalculated := false;
      assert forall j :: 0 <= j < pointCount ==> Points()[j] == Translated(old(Points()), dx, dy)[j];
    }

    /** Scales the stroke about (x0, y0): coordinates by fx and fy, the
        pressure (where present) and the width by their average. */
    method Scale(x0: real, y0: real, fx: real, fy: real)
      requires Valid()
      modifies points, this`width, this`sizeCalculated
      ensures Valid()
      ensures Points() == Scaled(old(Points()), x0, y0, fx, fy)
      ensures width == Stretch(old(width), PressureFactor(fx, fy)) && !sizeCalculated
    {
      var fz := PressureFactor(fx, fy);
      for i := 0 to pointCount
        modifies points
        invariant forall j :: 0 <= j < i ==> points[j] == ScalePoint(old(points[j]), x0, y0, fx, fy)
        invariant forall j :: i <= j < points.Length ==> points[j] == old(points[j])
      {
        var p := points[i];
        var z := if p.z != NO_PRESSURE then Stretch(p.z, fz) else p.z;
        points[i] := Point(ScaleCoord(p.x, x0, fx), ScaleCoord(p.y, y0, fy), z);
      }
      width := Stretch(width, fz);
      sizeCalculated := false;
      assert forall j :: 0 <= j < pointCount ==> Points()[j] == Scaled(old(Points()), x0, y0, fx, fy)[j];
    }

    /** Whether the stroke carries pressure, judged by its first sample. */
    function HasPressure(): (r: bool)
      reads this, points
      requires Valid()
      ensures r ==> |Points()| > 0
      ensures r <==> HasPressureOf(Points())
    {
      pointCount > 0 && points[0].z != NO_PRESSURE
    }

    method ScalePressure(factor: real)
      requires Valid()
      modifies points
      ensures Valid()
      ensures Points() == if old(HasPressure()) then PressureScaled(old(Points()), factor) else old(Points())
    {
      if !HasPressure() {
        return;
      }
      for i := 0 to pointCount
        invariant forall j :: 0 <= j < i ==> points[j] == old(points[j]).(z := old(points[j]).z * factor)
        invariant forall j :: i <= j < points.Length ==> points[j] == old(points[j])
      {
        points[i] := points[i].(z := points[i].z * factor);
      }
      assert forall j :: 0 <= j < pointCount ==> Points()[j] == PressureScaled(old(Points()), factor)[j];
    }

    method ClearPressure()
      requires Valid()
      modifies points
      ensures Valid()
      ensures Points() == PressureCleared(old(Points())) && !HasPressure()
    {
      for i := 0 to pointCount
        invariant forall j :: 0 <= j < i ==> points[j] == old(points[j]).(z := NO_PRESSURE)
        invariant forall j :: i <= j < points.Length ==> points[j] == old(points[j])
      {
        points[i] := points[i].(z := NO_PRESSURE);
      }
      assert forall j :: 0 <= j < pointCount ==> Points()[j] == PressureCleared(old(Points()))[j];
    }

    method SetLastPressure(pressure: real)
      requires Valid()
      modifies points
      ensures Valid()
      ensures var n := old(pointCount);
              Points() == if n > 0 then old(Points())[n - 1 := old(Points())[n - 1].(z := pressure)] else old(Points())
    {
      if pointCount > 0 {
        points[pointCount - 1] := points[pointCount - 1].(z := pressure);
      }
    }

    /** Sets the pressures positionally from `data` (None stands for a NULL
        array). Data shorter than the stroke is rejected and changes
        nothing. */
    method SetPressure(data: Option<seq<real>>) returns (rejected: bool)
      requires Valid()
      modifies points
      ensures Valid()
      ensures rejected <==> data.Some? && |data.value| < |old(Points())|
      ensures Points() == if data.Some? && !rejected then WithPressures(old(Points()), data.value) else old(Points())
    {
      if data.None? {
        return false;
      }
      var values := data.value;
      if |values| < pointCount {
        return true;
      }
      for i := 0 to pointCount
        invariant forall j :: 0 <= j < i ==> points[j] == old(points[j]).(z := values[j])
        invariant forall j :: i <= j < points.Length ==> points[j] == old(points[j])
      {
        points[i] := points[i].(z := values[i]);
      }
      assert forall j :: 0 <= j < pointCount ==> Points()[j] == WithPressures(old(Points()), values)[j];
      return false;
    }

    method SetWidth(w: real)
      modifies this`width
      ensures width == w
    {
      width := w;
    }

    /** A new stroke with its own buffer holding the same points, and the
        same color, tool and width; its capacity is its point count and it
        has no eraseable attached. */
    method Clone() returns (s: Stroke)
      requires Valid()
      ensures fresh(s) && fresh(s.points) && s.Valid()
      ensures s.Points() == Points() && s.pointAllocCount == pointCount
      ensures s.color == color && s.toolType == toolType && s.width == width && s.eraseable == null
    {
      s := new Stroke();
      s.color := color;
      s.toolType := toolType;
      s.width := width;
      s.AllocPointSize(pointCount);
      for i := 0 to pointCount
        invariant fresh(s) && fresh(s.points) && s.Valid() && s.pointCount == 0
        invariant s.color == color && s.toolType == toolType && s.width == width && s.eraseable == null
        invariant s.pointAllocCount == pointCount
        invariant forall j :: 0 <= j < i ==> s.points[j] == points[j]
      {
        s.points[i] := points[i];
      }
      s.pointCount := pointCount;
    }

    /** Whether the selection contains every point after the first; the
        first point is not looked at. */
    method IsInSelection(contains: (real, real) -> bool) returns (r: bool)
      requires Valid()
      ensures r <==> forall i :: 1 <= i < |Points()| ==> contains(Points()[i].x, Points()[i].y)
    {
      var i := 1;
      while i < pointCount
        invariant 1 <= i
        invariant forall j :: 1 <= j < i && j < pointCount ==> contains(points[j].x, points[j].y)
      {
        if !contains(points[i].x, points[i].y) {
          assert Points()[i] == points[i];
          return false;
        }
        i := i + 1;
      }
      return true;
    }

    /** calcSize's scan: the least and greatest x and y over the points of
        a non-empty stroke. */
    method Extremes() returns (minX: real, maxX: real, minY: real, maxY: real)
      requires Valid() && pointCount > 0
      ensures minX == Min(Points(), X) && maxX == Max(Points(), X)
      ensures minY == Min(Points(), Y) && maxY == Max(Points(), Y)
    {
      ghost var pts := Points();
      minX, maxX := points[0].x, points[0].x;
      minY, maxY := points[0].y, points[0].y;
      for i := 1 to pointCount
        invariant minX == Min(pts[..i], X) && maxX == Max(pts[..i], X)
        invariant minY == Min(pts[..i], Y) && maxY == Max(pts[..i], Y)
      {
        var p := points[i];
        assert p == pts[i];
        ExtremesStep(pts, i, X);
        ExtremesStep(pts, i, Y);
        if minX > p.x {
          minX := p.x;
        }
        if maxX < p.x {
          maxX := p.x;
        }
        if minY > p.y {
          minY := p.y;
        }
        if maxY < p.y {
          maxY := p.y;
        }
      }
      assert pts[..pointCount] == pts;
    }

    /** Recomputes the element's box from the points: the zero box for an
        empty stroke, otherwise the extremes padded by 2 units and the
        stroke width. */
    method CalcSize()
      requires Valid()
      modifies this`boxX, this`boxY, this`boxWidth, this`boxHeight
      ensures Box() == StrokeBox(Points(), width)
    {
      if pointCount == 0 {
        boxX, boxY := 0.0, 0.0;
        boxWidth, boxHeight := 0.0, 0.0;
        return;
      }
      var minX, maxX, minY, maxY := Extremes();
      boxX := minX - 2.0;
      boxY := minY - 2.0;
      boxWidth := maxX - minX + 4.0 + width;
      boxHeight := maxY - minY + 4.0 + width;
    }
  }

  /** The life of a drawn stroke: created, given its points one by one,
      shrunk to fit once the pen lifts, then moved. Each step changes only
      the new stroke and its own buffer. */
  method DrawShrinkAndMove(p: Point, q: Point, dx: real, dy: real) returns (s: Stroke)
    ensures fresh(s) && s.Valid()
    ensures s.Points() == Translated([p, q], dx, dy) && s.pointAllocCount == 2
  {
    s := new Stroke();
    s.AddPoint(p);
    s.AddPoint(q);
    s.FreeUnusedPointItems();
    s.Move(dx, dy);
  }
}
