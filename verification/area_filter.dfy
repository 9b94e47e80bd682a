/** The size filter: each contour index maps to the contour itself when its
    area is not below the threshold, and to `undefined` otherwise. */
module AreaFilter {
  import opened ContourTypes

  /** The threshold the test uses, in square pixels. */
  const MinContourArea: real := 10000.0

  /** `[...Array(n)].map(...)`: one slot per contour, in index order; the
      callback drops a contour whose area is below `minArea`. */
  function FilterBySize<C>(contours: seq<C>, area: C -> real, minArea: real): (r: seq<Option<C>>)
    ensures |r| == |contours|
    ensures forall i :: 0 <= i < |r| ==> (r[i].Some? <==> area(contours[i]) >= minArea)
    ensures forall i :: 0 <= i < |r| && r[i].Some? ==> r[i].value == contours[i]
  {
    if |contours| == 0 then []
    else FilterBySize(contours[..|contours| - 1], area, minArea)
         + [if area(contours[|contours| - 1]) < minArea then None else Some(contours[|contours| - 1])]
  }
}
