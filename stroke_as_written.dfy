/** Stroke operations exactly as the source writes them, on the raw buffer,
    including the places where they read outside it or leave the counters
    inconsistent. The Stroke class uses the corrected versions; the lemmas
    here exhibit each discrepancy and, where the source is right, that the
    two agree. */
module StrokeAsWritten {
  import opened Wrappers
  import opened Geometry

  // ---------------------------------------------------------------------
  // deletePoint

  /** deletePoint's loop over the whole allocated buffer `buf` from slot `i`
      on. Slots before `index` are written back unchanged; from `index` on
      slot i takes slot i + 1, up to and including slot count - 1. None
      when a read falls outside the buffer. */
  function ShiftAsWritten(buf: seq<Point>, i: int, count: int, index: int): Option<seq<Point>>
    requires 0 <= i <= count <= |buf|
    decreases count - i
  {
    if i == count then Some(buf)
    else if i < index then ShiftAsWritten(buf, i + 1, count, index)
    else if i + 1 >= |buf| then None
    else ShiftAsWritten(buf[i := buf[i + 1]], i + 1, count, index)
  }

  /** deletePoint as written: the buffer and the count it leaves, or None
      when it reads past the buffer. */
  function DeletePointAsWritten(buf: seq<Point>, count: int, index: int): Option<(seq<Point>, int)>
    requires 0 <= count <= |buf|
  {
    if count <= index then Some((buf, count))
    else match ShiftAsWritten(buf, 0, count, index)
      case None => None
      case Some(b) => Some((b, count - 1))
  }

  lemma {:induction false} ShiftOverrun(buf: seq<Point>, i: int, index: int)
    requires 0 <= i < |buf| && index < |buf|
    ensures ShiftAsWritten(buf, i, |buf|, index) == None
    decreases |buf| - i
  {
    if i < index {
      ShiftOverrun(buf, i + 1, index);
    } else if i + 1 < |buf| {
      ShiftOverrun(buf[i := buf[i + 1]], i + 1, index);
    }
  }

  /** When the buffer is full (as after clone or freeUnusedPointItems,
      and after every hundredth addPoint), deleting any live point reads
      the slot one past the end of the buffer. */
  lemma DeletePointReadsPastFullBuffer(buf: seq<Point>, index: int)
    requires 0 < |buf| && index < |buf|
    ensures DeletePointAsWritten(buf, |buf|, index) == None
  {
    ShiftOverrun(buf, 0, index);
  }

  lemma {:induction false} ShiftShifts(buf: seq<Point>, i: int, count: int, index: int)
    requires 0 <= i <= count < |buf|
    ensures ShiftAsWritten(buf, i, count, index).Some?
    ensures var b := ShiftAsWritten(buf, i, count, index).value;
            |b| == |buf| &&
            (forall j :: 0 <= j < i ==> b[j] == buf[j]) &&
            (forall j :: i <= j < count && j < index ==> b[j] == buf[j]) &&
            (forall j :: i <= j < count && index <= j ==> b[j] == buf[j + 1])
    decreases count - i
  {
    if i < count {
      if i < index {
        ShiftShifts(buf, i + 1, count, index);
      } else {
        ShiftShifts(buf[i := buf[i + 1]], i + 1, count, index);
      }
    }
  }

  /** Below capacity the as-written loop only reads a stale slot, and its
      live points are the intended ones: the old points without the one at
      `index` (a negative index removes the first point). */
  lemma DeletePointBelowCapacity(buf: seq<Point>, count: int, index: int)
    requires 0 < count < |buf| && index < count
    ensures DeletePointAsWritten(buf, count, index).Some?
    ensures var (b, n) := DeletePointAsWritten(buf, count, index).value;
            var k := if index < 0 then 0 else index;
            n == count - 1 && |b| == |buf| && b[..n] == buf[..k] + buf[k + 1..count]
  {
    ShiftShifts(buf, 0, count, index);
    var b := ShiftAsWritten(buf, 0, count, index).value;
    var k := if index < 0 then 0 else index;
    var want := buf[..k] + buf[k + 1..count];
    forall j | 0 <= j < count - 1 ensures b[j] == want[j] {
      if j < k { assert want[j] == buf[j]; } else { assert want[j] == buf[j + 1]; }
    }
    assert b[..count - 1] == want;
  }

  /** On an empty stroke with a negative index, deletePoint passes its
      guard and leaves a count of -1. */
  lemma DeletePointNegativeOnEmpty(buf: seq<Point>)
    ensures DeletePointAsWritten(buf, 0, -1) == Some((buf, -1))
  {
  }

  // ---------------------------------------------------------------------
  // deletePointsFrom

  /** The count deletePointsFrom leaves. */
  function DeletePointsFromAsWritten(count: int, index: int): int {
    if count <= index then count else index
  }

  /** A negative index is taken as the new count. */
  lemma DeletePointsFromNegativeIndex(count: nat)
    ensures DeletePointsFromAsWritten(count, -1) == -1
  {
  }

  // ---------------------------------------------------------------------
  // calcSize

  /** calcSize as written on the allocated buffer `buf` with `count` live
      points: the empty case assigns the zero box and then falls through to
      the scan, which starts from slot 0 whatever the count. None when
      there is no slot 0 to read. */
  function CalcSizeAsWritten(buf: seq<Point>, count: int, strokeWidth: real): Option<Rect>
    requires 0 <= count <= |buf|
  {
    if |buf| == 0 then None
    else
      var scanned := buf[..if count == 0 then 1 else count];
      Some(PaddedBox(Min(scanned, X), Max(scanned, X), Min(scanned, Y), Max(scanned, Y), strokeWidth))
  }

  /** An empty stroke never gets the zero box: a new stroke has no buffer
      to read, and one emptied by deletePointsFrom gets a box around its
      stale first slot. */
  lemma CalcSizeEmptyAsWritten(buf: seq<Point>, strokeWidth: real)
    ensures |buf| == 0 ==> CalcSizeAsWritten(buf, 0, strokeWidth) == None
    ensures |buf| > 0 ==> CalcSizeAsWritten(buf, 0, strokeWidth) ==
                           Some(Rect(buf[0].x - 2.0, buf[0].y - 2.0, 4.0 + strokeWidth, 4.0 + strokeWidth))
  {
    if |buf| > 0 {
      assert buf[..1] == [buf[0]];
    }
  }

  /** With points, the as-written scan is the corrected one. */
  lemma CalcSizeAgreesWithPoints(buf: seq<Point>, count: int, strokeWidth: real)
    requires 0 < count <= |buf|
    ensures CalcSizeAsWritten(buf, count, strokeWidth) == Some(StrokeBox(buf[..count], strokeWidth))
  {
  }

  // ---------------------------------------------------------------------
  // setPressure

  /** setPressure's loop from point `i` on: point i takes data[i]; None when
      it reads past the end of `data`. */
  function SetPressureFrom(pts: seq<Point>, data: seq<real>, i: nat): Option<seq<Point>>
    requires i <= |pts|
    decreases |pts| - i
  {
    if i == |pts| then Some(pts)
    else if i >= |data| then None
    else SetPressureFrom(pts[i := pts[i].(z := data[i])], data, i + 1)
  }

  /** setPressure as written; None for `data` stands for a NULL array. */
  function SetPressureAsWritten(pts: seq<Point>, data: Option<seq<real>>): Option<seq<Point>> {
    if data.None? then Some(pts) else SetPressureFrom(pts, data.value, 0)
  }

  lemma {:induction false} SetPressureFromShort(pts: seq<Point>, data: seq<real>, i: nat)
    requires i <= |data| < |pts|
    ensures SetPressureFrom(pts, data, i) == None
    decreases |pts| - i
  {
    if i < |data| {
      SetPressureFromShort(pts[i := pts[i].(z := data[i])], data, i + 1);
    }
  }

  /** Fewer values than points: the loop reads past the end of `data`. */
  lemma SetPressureReadsPastShortData(pts: seq<Point>, data: seq<real>)
    requires |data| < |pts|
    ensures SetPressureAsWritten(pts, Some(data)) == None
  {
    SetPressureFromShort(pts, data, 0);
  }

  lemma {:induction false} SetPressureFromLongEnough(pts: seq<Point>, data: seq<real>, i: nat)
    requires i <= |pts| <= |data|
    requires forall j :: 0 <= j < i ==> pts[j].z == data[j]
    ensures SetPressureFrom(pts, data, i) == Some(WithPressures(pts, data))
    decreases |pts| - i
  {
    if i < |pts| {
      var next := pts[i := pts[i].(z := data[i])];
      SetPressureFromLongEnough(next, data, i + 1);
      assert WithPressures(next, data) == WithPressures(pts, data);
    } else {
      assert WithPressures(pts, data) == pts;
    }
  }

  /** With enough values the as-written loop is the corrected operation. */
  lemma SetPressureAgreesWhenLongEnough(pts: seq<Point>, data: seq<real>)
    requires |pts| <= |data|
    ensures SetPressureAsWritten(pts, Some(data)) == Some(WithPressures(pts, data))
  {
    SetPressureFromLongEnough(pts, data, 0);
  }
}
