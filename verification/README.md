# Contour leaf selection and containment, modelled in Dafny

The repository is a test suite for a JavaScript/WebAssembly binding of a
computer-vision library. Its "cv contour" test thresholds an image, asks the
library for contours and their hierarchy, and then runs a small piece of its
own logic:

1. **Area filter**: each contour index becomes the contour itself, or
   `undefined` when its area is below 10000.
2. **Hierarchy inversion**: the flat per-contour `parent` pointers
   (`[next, previous, firstChild, parent]` per column) become one ascending
   `children` list per contour.
3. **Leaf selection**: `findIndex` returns the first kept contour whose
   children were all dropped. That is a leaf of the forest induced by the
   kept contours, not necessarily a leaf of the raw hierarchy. It returns
   -1 when there is none.
4. **Containment assertion**: the count of non-zero pixels of
   `region AND rectangle` must equal the count of the rectangle. Over sets of
   pixels this holds exactly when the rectangle lies inside the region.

Modules:

- `ContourTypes` (`types.dfy`): `Option` for kept/`undefined` slots, `Result`
  for computations that can throw, `HierarchyEntry`, `ContourError`.
- `AreaFilter` (`area_filter.dfy`): the area filter. The contour type is a
  type parameter. The area is a caller-supplied function `C -> real`.
- `Hierarchy` (`hierarchy.dfy`): the reduce that builds the children lists.
- `LeafSelection` (`leaf_selection.dfy`): the `findIndex` search.
- `ContourPipeline` (`pipeline.dfy`): the three steps composed. The selected
  index is characterised directly from the areas and the parent pointers.
- `Containment` (`containment.dfy`): the counting assertion over pixel sets.

The test's own code has two ways to throw, and both are modelled as
`Failure` results rather than excluded by preconditions:

- a parent pointer that is not below the column count makes `acc[parent]`
  undefined, and the reduce throws at the first such column
  (`ParentOutOfRange`);
- a kept contour whose index has no hierarchy entry makes
  `hierarchy[i].children` throw (`MissingHierarchyEntry`).

A child index past the end of the contour list reads `undefined` and counts
as dropped, as in JavaScript.

Three facts about the code that the model keeps:

- "not found" is the index -1, not a separate outcome;
- any parent below the column count is accepted, with no ordering required
  between a contour and its parent;
- the threshold is fixed at 10000 in the test. It is a parameter of
  `FilterBySize`, and the composed pipeline passes `MinContourArea`, which
  is 10000.

## Model

| member | source | states |
|---|---|---|
| AreaFilter.FilterBySize | src/opencv.test.ts:45-51 | one slot per contour, in order; slot `i` is kept iff contour `i`'s area is not below the threshold, and then holds contour `i` |
| Hierarchy.InvertHierarchy | src/opencv.test.ts:53-62 | succeeds iff every parent pointer is negative or below the column count; on success there is one list per column, `c` is in list `p` iff `parent[c] == p`, nothing else is listed, a contour with a negative parent is in no list, and every list is strictly ascending; on failure it names the first column whose parent is out of range |
| Hierarchy.ChildrenListsUnique | src/opencv.test.ts:53-62 | the inverse relation plus ascending order determine the children lists completely |
| LeafSelection.FindLeaf | src/opencv.test.ts:64-66 | returns the least index that is kept and has no kept child, or -1 iff there is none; -1 implies no kept contour has an empty children list; throws only at a kept index with no hierarchy entry, before any qualifying index |
| ContourPipeline.KeptLeafIsForestLeaf | src/opencv.test.ts:53-66 | on the inverted hierarchy, the search predicate holds at `i` iff `i` is large and no contour whose parent is `i` is large |
| ContourPipeline.FindInterestedContour | src/opencv.test.ts:45-66 | for well-formed input it never throws and returns the least leaf of the forest induced by the large contours (an index with a hierarchy entry), or -1 iff there is none; a bad parent pointer throws first, at the first bad column, and is the only way to get that error; otherwise it throws exactly when a large contour past the end of the hierarchy is reached before any leaf, and then at the first such contour |
| Containment.CountEqualIffSubset | src/opencv.test.ts:85-90 | the intersection count equals the rectangle count iff the rectangle's pixels are a subset of the region's |
| Containment.IntersectionMatchesRectangle | src/opencv.test.ts:85-90 | the test's assertion holds iff the rectangle lies inside the region, and fails only when some rectangle pixel lies outside it |
| Containment.IntersectionCountBounded | src/opencv.test.ts:85-88 | the intersection count never exceeds the rectangle count |

## Left out

- Runtime initialisation and loading of the image and its metadata (src/opencv.test.ts:9-13, 21-31): asynchronous start-up and file I/O.
- The library calls `split`, `threshold`, `bitwise_and`, `cvtColor`, `findContours`, `contourArea`, `drawContours`, `rectangle` and `countNonZero` (src/opencv.test.ts:33-43, 47, 69, 78-88): foreign code whose source is not part of this model. Their outputs are inputs here: the contours, the area function, the hierarchy entries and the pixel sets.
- The area computation and the grayscale conversion: floating point inside the library. Areas are `real`, so a NaN area is not modelled.
- Passing -1 to `drawContours` when no leaf is found (src/opencv.test.ts:69): library-defined behaviour.
- Rasterisation of the filled contour and of the rectangle: the pixel sets are abstract, so the fixture's bounds 77/217/191/585 and the 701×375 image size do not appear.
- The `next`, `previous` and `firstChild` fields of a hierarchy entry are carried but unused, as in the test.
- 32-bit width of the hierarchy integers: parent pointers are unbounded integers. The only comparisons the test makes are `>= 0` and indexing, which behave the same.
