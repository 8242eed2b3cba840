# Xournal++ strokes and list iterators, modelled in Dafny

This project models two parts of the Xournal++ note-taking application.

The first is the `Stroke` element: one pen, eraser or highlighter stroke.
It holds its points in a buffer that it manages by hand. The buffer grows
by 100 slots whenever it is full. The stroke can be shrunk to fit,
truncated, have one point deleted, be moved, scaled and cloned, and have
its pressures changed. It can also say whether a selection contains it,
and it recomputes the bounding box cached in the element base.
`Strokes.Stroke` is a class over an `array<Point>` with the source's
counters `pointCount` and `pointAllocCount`. Its methods are proved
against specification functions on the sequence of live points
(`Points()`), which are defined in module `Geometry`.

The second is `ListIterator<T>`, a forward or reverse cursor over a glib
doubly linked list. Its `freeze` takes a private copy of the list.
`ListIterators.ListIterator` keeps the list as a heap object holding a
sequence, with an index for the node pointer; an index outside the
sequence is NULL. What the remaining `next()` calls will return is the
ghost view `Remaining()`.

Where the code does something its callers evidently do not intend, the
class uses the corrected behaviour. Module `StrokeAsWritten` and the
method `ListIterators.ListIterator.Freeze` model the code as written, with
lemmas that exhibit the difference (see "## Findings").

Modules:

- `Wrappers`: the `Option` type.
- `Geometry`: points, rectangles, and the specification functions for the
  extremes, the bounding box, moving, scaling and pressure.
- `Strokes`: the `Stroke` class and its capacity arithmetic.
- `StrokeAsWritten`: as-written models of `deletePoint`, `deletePointsFrom`,
  `calcSize` and `setPressure`.
- `ListIterators`: `GList`, `ListIterator`, and the usual client loops.

## Model

| member | source | states |
|---|---|---|
| Strokes.GrownCapacity | src/model/Stroke.cpp:100-103 | addPoint leaves the capacity alone or adds exactly 100 slots, and the resulting capacity exceeds the count whenever the buffer was not already over-full |
| Strokes.CapacityAfterAppendsIsRoundedUp | src/model/Stroke.cpp:100-111 | after n appends to a new stroke the capacity is a multiple of 100, at least n and less than n + 100 |
| Strokes.Stroke.constructor | src/model/Stroke.cpp:7-17 | a new stroke is a pen stroke, has no points and an empty buffer of its own, has width 0 and no eraseable |
| Strokes.Stroke.AllocPointSize | src/model/Stroke.cpp:108-111 | the buffer is reallocated to `size` slots, the capacity becomes `size`, and the live points are kept |
| Strokes.Stroke.AddPoint | src/model/Stroke.cpp:100-106 | the points become the old points followed by `p`; the capacity grows by 100 exactly when the buffer was full; the size cache is cleared; the buffer invariant holds |
| Strokes.Stroke.FreeUnusedPointItems | src/model/Stroke.cpp:155-161 | the capacity becomes the point count and the points are unchanged; a buffer that already fits is kept, and otherwise the new buffer is fresh |
| Strokes.Stroke.DeletePointsFrom | src/model/Stroke.cpp:121-126 | this is a no-op when index >= count; otherwise the points become the first `index` old points |
| Strokes.Stroke.DeletePoint | src/model/Stroke.cpp:128-141 | this is a no-op when the index is negative or at least the count; otherwise the points become the old ones without the one at `index` |
| Strokes.Stroke.GetPoint | src/model/Stroke.cpp:143-149 | for an index in range it returns that point; otherwise it reports out of range and returns (0, 0) without pressure |
| Strokes.Stroke.SetLastPoint | src/model/Stroke.cpp:91-98 | only the x and y of the last point change, and the size cache is cleared; an empty stroke changes nothing |
| Strokes.Stroke.Move | src/model/Stroke.cpp:171-178 | the points become `Translated(old points)` and the size cache is cleared |
| Strokes.Stroke.Scale | src/model/Stroke.cpp:180-201 | the points become `Scaled(old points)`, the width is multiplied by the average factor, and the size cache is cleared |
| Strokes.Stroke.HasPressure | src/model/Stroke.cpp:203-208 | the stroke has pressure iff it has a first point whose pressure is not the sentinel |
| Strokes.Stroke.ScalePressure | src/model/Stroke.cpp:210-217 | a stroke with pressure has every pressure multiplied by the factor; otherwise nothing changes |
| Strokes.Stroke.ClearPressure | src/model/Stroke.cpp:219-223 | every pressure becomes the sentinel, and afterwards the stroke has no pressure |
| Strokes.Stroke.SetLastPressure | src/model/Stroke.cpp:225-229 | only the pressure of the last point changes; an empty stroke changes nothing |
| Strokes.Stroke.SetPressure | src/model/Stroke.cpp:231-238 | NULL data changes nothing; data with at least as many values as points sets each point's pressure to the value at its position; shorter data is rejected and changes nothing |
| Strokes.Stroke.SetWidth | src/model/Stroke.cpp:70-72 | only the width changes; the size cache is left as it was |
| Strokes.Stroke.Clone | src/model/Stroke.cpp:23-34 | the result is a new stroke with a new buffer, the same points, color, tool and width, a capacity equal to its point count, and no eraseable |
| Strokes.Stroke.IsInSelection | src/model/Stroke.cpp:78-89 | the result is true iff the container contains every point after the first |
| Strokes.Stroke.Extremes | src/model/Stroke.cpp:318-336 | the scan returns `Min` and `Max` of the x and y coordinates of the points |
| Strokes.DrawShrinkAndMove | src/model/Stroke.cpp:100-178 | a new stroke given two points, shrunk to fit and moved holds the two moved points in a buffer of exactly two slots |
| Strokes.Stroke.CalcSize | src/model/Stroke.cpp:308-342 | the cached box becomes `StrokeBox(points, width)`: the zero box for an empty stroke, otherwise the extremes padded by 2 units and the width |
| Geometry.ExtremesBound | src/model/Stroke.cpp:318-336 | every point lies between the scan's minimum and maximum, and both are attained by some point |
| Geometry.ExtremesStep | src/model/Stroke.cpp:323-335 | each step of the scan folds the next point into the minimum and the maximum with a strict comparison |
| Geometry.StrokeBoxCovers | src/model/Stroke.cpp:338-341 | every point lies inside the computed box with the padding |
| Geometry.StrokeBoxIsSmallest | src/model/Stroke.cpp:338-341 | every box that covers all points with the same padding contains the computed box |
| Geometry.SameCoordsSameBox | src/model/Stroke.cpp:308-342 | the box depends only on the coordinates of the points, not on their pressures |
| Geometry.SameCoordsSameExtremes | src/model/Stroke.cpp:318-336 | points with equal coordinates have equal extremes |
| Geometry.TranslatedInverse | src/model/Stroke.cpp:171-178 | moving by (dx, dy) and then by (-dx, -dy) gives the points back |
| Geometry.TranslatedMin | src/model/Stroke.cpp:171-178 | moving shifts the minimum coordinate by the offset along that axis |
| Geometry.TranslatedMax | src/model/Stroke.cpp:171-178 | moving shifts the maximum coordinate by the offset along that axis |
| Geometry.TranslatedBox | src/model/Stroke.cpp:171-178 | moving shifts the box by (dx, dy) and keeps its size; an empty stroke keeps the zero box |
| Geometry.ScaleCoordMonotone | src/model/Stroke.cpp:186-192 | scaling a coordinate by a non-negative factor keeps the order of coordinates |
| Geometry.ScaledCoord | src/model/Stroke.cpp:184-196 | a scaled point's coordinate on either axis is that coordinate scaled about the origin |
| Geometry.ScaledMin | src/model/Stroke.cpp:180-197 | with a non-negative factor, the minimum of the scaled points is the scaled minimum |
| Geometry.ScaledMax | src/model/Stroke.cpp:180-197 | with a non-negative factor, the maximum of the scaled points is the scaled maximum |
| Geometry.ScaleCoordDifference | src/model/Stroke.cpp:186-192 | the distance between two scaled coordinates is their distance times the factor |
| Geometry.ScaledBox | src/model/Stroke.cpp:180-201 | with non-negative factors, scaling maps the box's unpadded corner like a point and stretches its unpadded extent by the factors |
| Geometry.PressureEditsKeepBox | src/model/Stroke.cpp:210-238 | scaling, clearing and setting all pressures, and setting the last one, leave the box unchanged, which is why none of them clears the size cache |
| Geometry.WithPressuresReadBack | src/model/Stroke.cpp:231-238 | after setting pressures from data, the pressures read back are the first |points| values of the data, and the coordinates are unchanged |
| Geometry.PressureScaledTwice | src/model/Stroke.cpp:210-217 | two pressure scalings make one scaling by the product of the factors |
| Geometry.PressureClearedHasNone | src/model/Stroke.cpp:219-223 | after clearing, the stroke has no pressure; clearing again changes nothing; the coordinates are kept |
| StrokeAsWritten.DeletePointReadsPastFullBuffer | src/model/Stroke.cpp:133-139 | on a full buffer, deleting any live point reads the slot one past the end of the buffer |
| StrokeAsWritten.ShiftOverrun | src/model/Stroke.cpp:133-139 | the shift loop over a full buffer reaches a read past the end from any start position |
| StrokeAsWritten.ShiftShifts | src/model/Stroke.cpp:133-139 | below capacity, the shift loop keeps the slots before `index` and moves each later slot down by one |
| StrokeAsWritten.DeletePointBelowCapacity | src/model/Stroke.cpp:128-141 | below capacity, the as-written delete leaves the intended points, with a negative index taken as 0 |
| StrokeAsWritten.DeletePointNegativeOnEmpty | src/model/Stroke.cpp:128-141 | on an empty stroke, index -1 passes the guard and leaves a count of -1 |
| StrokeAsWritten.DeletePointsFromNegativeIndex | src/model/Stroke.cpp:121-126 | index -1 is taken as the new point count |
| StrokeAsWritten.CalcSizeEmptyAsWritten | src/model/Stroke.cpp:308-342 | an empty stroke never gets the zero box: with no buffer, slot 0 is read outside it; with a stale buffer, the box is built around slot 0 |
| StrokeAsWritten.CalcSizeAgreesWithPoints | src/model/Stroke.cpp:318-341 | for a stroke with points, the as-written calcSize computes `StrokeBox` |
| StrokeAsWritten.SetPressureReadsPastShortData | src/model/Stroke.cpp:231-238 | data shorter than the stroke is read past its end |
| StrokeAsWritten.SetPressureFromShort | src/model/Stroke.cpp:235-237 | from any position within short data, the loop reaches a read past its end |
| StrokeAsWritten.SetPressureFromLongEnough | src/model/Stroke.cpp:235-237 | with enough data, the loop from any position sets the remaining pressures positionally |
| StrokeAsWritten.SetPressureAgreesWhenLongEnough | src/model/Stroke.cpp:231-238 | with enough data, the as-written setPressure is `WithPressures` |
| ListIterators.ReversedTwice | src/util/ListIterator.h:20-28 | reversing twice gives the list back |
| ListIterators.ReversedPrefixStep | src/util/ListIterator.h:55-56 | the walk back from node c is node c followed by the walk back from node c - 1 |
| ListIterators.ListIterator.constructor | src/util/ListIterator.h:20-28 | a forward iterator will yield the whole list and a reverse one the list from last to first; it is not frozen |
| ListIterators.ListIterator.HasNext | src/util/ListIterator.h:49-51 | the result is true iff another next() has an element to return |
| ListIterators.ListIterator.Next | src/util/ListIterator.h:53-61 | requires a current node; returns the first element still to come, and afterwards the rest remain |
| ListIterators.ListIterator.Freeze | src/util/ListIterator.h:41-47 | this is idempotent; the first call gives the iterator a new list holding the current node and everything after it, and moves the cursor to its head; a forward iterator keeps what it had left, a reverse one only its current element |
| ListIterators.ListIterator.FreezeCorrected | src/util/ListIterator.h:38-47 | this is idempotent; the first call gives the iterator a new copy of the whole list, and both directions keep exactly what they had left |
| ListIterators.Drain | src/util/ListIterator.h:49-61 | calling next() while hasNext() holds collects exactly what the iterator had left, and leaves it exhausted |
| ListIterators.IterateForward | src/util/ListIterator.h:20-28 | a forward iterator yields the list's elements in order |
| ListIterators.IterateReverse | src/util/ListIterator.h:20-28 | a reverse iterator yields element |s| - 1 - i at step i, and reversing what it yields gives the list back |
| ListIterators.FrozenForwardIgnoresSource | src/util/ListIterator.h:38-47 | once frozen, a forward iterator yields what it had left whatever the caller then writes into its own list |
| ListIterators.FrozenReverseStopsEarly | src/util/ListIterator.h:41-47 | a reverse iterator frozen at the start of a list of two or more elements then yields only the last element, not the reversed list |
| ListIterators.FrozenReverseKeepsAll | src/util/ListIterator.h:38-47 | with the corrected freeze, a reverse iterator frozen at the start yields the reversed list |

## Left out

- `Stroke::serialize` and `readSerialized` are not modelled. Their byte format belongs to `ObjectStream`, which is not part of this model.
- `Stroke::intersects` is not modelled. It is floating-point eraser geometry built on `hypot`.
- `debugPrint` is not modelled because it only prints.
- Plain accessors are not modelled as operations: `getWidth`, `getToolType`, `setToolType`, `getPointCount`, `getPoints`, `pointIterator`, `getEraseable` and `setEraseable`. The fields they read and write are fields of `Strokes.Stroke`.
- The `Stroke` and `ListIterator` destructors only release memory, which Dafny's heap does not model.
- Coordinates, widths and pressures are mathematical reals, so IEEE rounding is not modelled: `a * f * g` and `a * (f * g)` are equal here.
- The NULL `points` buffer of a new stroke is modelled as a zero-length array.
- `Point.h` is not part of this model. The pressure sentinel `NO_PRESSURE` is taken to be -1.0; no property depends on its value.
- `Element.cpp` is not part of this model. The element base's position and size are the fields `boxX`, `boxY`, `boxWidth` and `boxHeight`. The lazy recomputation that reads `sizeCalculated` and calls `calcSize` is not modelled, so `CalcSize` does not set `sizeCalculated`.
- Strokes.Stroke.AllocPointSize: requires a size no smaller than the point count. g_realloc to a smaller size would drop live points; both callers in the source satisfy the requirement.
- Strokes.Stroke.DeletePointsFrom: requires a non-negative index. The as-written behaviour for a negative index is in `StrokeAsWritten` (see "## Findings").
- Strokes.Stroke.Valid: does not say that a stroke's buffer is private to it. Every method that reallocates returns a fresh buffer, but for two strokes held at once the model does not prove that editing one leaves the other's points unchanged.
- Strokes.Stroke.IsInSelection: the source's loop starts at point 1, so the first point is never tested. The model keeps this, and the contract says so.
- The `ShapeContainer` that `isInSelection` asks is modelled as a pure function `contains` of the coordinates.
- `deletePointsFrom` and `deletePoint` do not clear `sizeCalculated` in the source. The model keeps this and promises nothing about the cached box after them.
- A `GList` is modelled as a sequence of elements with an index for the node pointer, so node identity and sharing of nodes between lists are not modelled. The private copy freeze takes is a new `GList` object.
- `g_list_copy` is modelled as copying from the given node to the tail, the copy's head having no previous node. This follows glib's implementation. glib documents the argument as the head of the list, but the source passes the current node, which need not be the head.

## Findings

| source | as written | input that shows it | evidently intended | confidence | as-written member | corrected member |
|---|---|---|---|---|---|---|
| src/model/Stroke.cpp:133-139 | deletePoint's loop runs `i` up to the last live slot and reads `points[i + 1]` there | any stroke whose buffer is full, for example right after `clone` or `freeUnusedPointItems`, with any index below the count | the loop stops one slot earlier, so only live slots are read | not executed | StrokeAsWritten.DeletePointReadsPastFullBuffer | Strokes.Stroke.DeletePoint |
| src/model/Stroke.cpp:128-141 | the guard is only `pointCount <= index`, so a negative index passes it | an empty stroke with index -1: the count becomes -1 | a negative index is rejected like one past the end | not executed | StrokeAsWritten.DeletePointNegativeOnEmpty | Strokes.Stroke.DeletePoint |
| src/model/Stroke.cpp:121-126 | a negative index passes the guard and becomes the point count | any stroke with index -1 | the count never drops below 0 | not executed | StrokeAsWritten.DeletePointsFromNegativeIndex | Strokes.Stroke.DeletePointsFrom |
| src/model/Stroke.cpp:308-318 | the empty case sets the zero box but does not return, so the scan then reads `points[0]` | a new stroke (NULL buffer), or a stroke emptied by `deletePointsFrom(0)` | an empty stroke keeps the zero box | not executed | StrokeAsWritten.CalcSizeEmptyAsWritten | Strokes.Stroke.CalcSize |
| src/model/Stroke.cpp:231-238 | setPressure reads `data[i]` for every point, whatever the length of `data` | a stroke of 2 points and a data array of 1 value | data shorter than the stroke is refused | not executed | StrokeAsWritten.SetPressureReadsPastShortData | Strokes.Stroke.SetPressure |
| src/util/ListIterator.h:41-47 | freeze copies from the current node forward, but a reverse iterator then follows `prev` links, which the copy does not have before its head | a reverse iterator over [a, b], frozen before the first next(): it yields [b] and stops | the snapshot keeps what the iterator had left in either direction | not executed | ListIterators.FrozenReverseStopsEarly | ListIterators.ListIterator.FreezeCorrected |
