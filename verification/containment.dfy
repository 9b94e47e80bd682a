/** The final assertion of the test, read over sets of pixels: the filled
    leaf contour is the set `region`, the filled rectangle is `rect`,
    `bitwise_and` of the two images is their intersection and
    `countNonZero` is cardinality. */
module Containment {

  /** A pixel position, column `x` and row `y`. */
  datatype Pixel = Pixel(x: int, y: int)

  /** A subset is never larger than its superset. */
  lemma {:induction false} SubsetNoLarger<T>(a: set<T>, b: set<T>)
    requires a <= b
    ensures |a| <= |b|
  {
    if a != {} {
      var x :| x in a;
      SubsetNoLarger(a - {x}, b - {x});
    }
  }

  /** Counting decides containment: the intersection has as many elements
      as `rect` exactly when `rect` lies inside `region`. */
  lemma {:induction false} CountEqualIffSubset<T>(region: set<T>, rect: set<T>)
    ensures |region * rect| == |rect| <==> rect <= region
  {
    if rect <= region {
      assert region * rect == rect;
    } else {
      var x :| x in rect && x !in region;
      SubsetNoLarger(region * rect, rect - {x});
    }
  }

  /** `t.is(intersection, innerArea)`: the count of the AND image equals
      the count of the rectangle image. */
  function IntersectionMatchesRectangle(region: set<Pixel>, rect: set<Pixel>): (holds: bool)
    ensures holds <==> rect <= region
    ensures !holds ==> exists p :: p in rect && p !in region
  {
    CountEqualIffSubset(region, rect);
    |region * rect| == |rect|
  }

  /** The intersection count can never exceed the rectangle count, so the
      assertion fails only by falling short. */
  lemma IntersectionCountBounded<T>(region: set<T>, rect: set<T>)
    ensures |region * rect| <= |rect|
  {
    SubsetNoLarger(region * rect, rect);
  }
}
