/** Shared data model of the contour test: the per-contour hierarchy record
    returned by the contour finder, the "kept or undefined" tag of the area
    filter, and the two ways the test's own code can throw. */
module ContourTypes {

  /** A filtered contour slot: `Some(c)` for a kept contour, `None` where the
      test stores `undefined`. */
  datatype Option<+T> = None | Some(value: T)

  /** A computation that either produces a value or throws. */
  datatype Result<+T, +E> = Success(value: T) | Failure(error: E)

  /** One column of the hierarchy matrix: four 32-bit integers
      `[next, previous, firstChild, parent]`, each -1 when absent.
      Only `parent` is read by the test. */
  datatype HierarchyEntry = HierarchyEntry(next: int, previous: int, firstChild: int, parent: int)

  /** The TypeErrors the test's own code raises on malformed input. */
  datatype ContourError =
    | /** `acc[parent]` is undefined because `parent` is not below the column count. */
      ParentOutOfRange(index: nat, parent: int)
    | /** `hierarchy[i]` is undefined for a kept contour `i`. */
      MissingHierarchyEntry(index: nat)
}
