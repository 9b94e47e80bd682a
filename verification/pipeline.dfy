/** The test's own logic end to end: filter the contours by area, invert the
    hierarchy, then pick the first kept contour whose children were all
    dropped. The result is characterised directly in terms of the areas and
    the raw parent pointers. */
module ContourPipeline {
  import opened ContourTypes
  import opened AreaFilter
  import opened Hierarchy
  import opened LeafSelection

  /** Contour `j` exists and passes the area threshold. */
  predicate IsLarge<C>(contours: seq<C>, area: C -> real, j: int) {
    0 <= j < |contours| && area(contours[j]) >= MinContourArea
  }

  /** Contour `i` is a leaf of the forest induced by the large contours:
      it is large, and no contour whose parent pointer names it is large. */
  predicate IsForestLeaf<C>(contours: seq<C>, area: C -> real, h: seq<HierarchyEntry>, i: int) {
    && IsLarge(contours, area, i)
    && forall j :: 0 <= j < |h| && h[j].parent == i ==> !IsLarge(contours, area, j)
  }

  /** A filtered slot is kept exactly when its contour is large. */
  lemma KeptIffLarge<C>(contours: seq<C>, area: C -> real)
    ensures forall j :: IsKept(FilterBySize(contours, area, MinContourArea), j) <==> IsLarge(contours, area, j)
  {
  }

  /** On the inverted hierarchy, the `findIndex` predicate over the filtered
      contours agrees with the forest-leaf condition over the parent pointers. */
  lemma {:induction false} KeptLeafIsForestLeaf<C>(contours: seq<C>, area: C -> real, h: seq<HierarchyEntry>,
                                                   children: seq<seq<nat>>, i: nat)
    requires IsChildrenOf(h, children)
    requires i < |h|
    ensures IsKeptLeaf(FilterBySize(contours, area, MinContourArea), children, i)
            <==> IsForestLeaf(contours, area, h, i)
  {
    var filtered := FilterBySize(contours, area, MinContourArea);
    KeptIffLarge(contours, area);
    if IsKeptLeaf(filtered, children, i) {
      forall j | 0 <= j < |h| && h[j].parent == i
        ensures !IsLarge(contours, area, j)
      {
        assert j in children[i];
        var k :| 0 <= k < |children[i]| && children[i][k] == j;
        assert !IsKept(filtered, children[i][k]);
      }
    }
    if IsForestLeaf(contours, area, h, i) {
      forall k | 0 <= k < |children[i]|
        ensures !IsKept(filtered, children[i][k])
      {
        var c := children[i][k];
        assert c in children[i];
        assert h[c].parent == i;
      }
    }
  }

  /** Lines 45-66 of the test. A malformed parent pointer throws inside the
      reduce before the search starts; a kept contour past the end of the
      hierarchy throws inside the search. */
  method FindInterestedContour<C>(contours: seq<C>, area: C -> real, h: seq<HierarchyEntry>)
    returns (r: Result<int, ContourError>)
    ensures !ParentsInRange(h) ==> r.Failure? && IsFirstBadParent(h, r.error)
    ensures ParentsInRange(h) && |contours| <= |h| ==> r.Success?
    ensures ParentsInRange(h) && r.Failure? ==> r.error.MissingHierarchyEntry?
    ensures r.Success? ==> -1 <= r.value < |contours|
    ensures r.Success? && r.value >= 0 ==> r.value < |h|
    ensures r.Success? && r.value == -1 ==> forall j :: |h| <= j < |contours| ==> !IsLarge(contours, area, j)
    ensures r.Success? && r.value >= 0 ==> IsForestLeaf(contours, area, h, r.value)
    ensures r.Success? && r.value >= 0 ==> forall j :: 0 <= j < r.value ==> !IsForestLeaf(contours, area, h, j)
    ensures r.Success? && r.value == -1 ==> forall j :: 0 <= j < |contours| ==> !IsForestLeaf(contours, area, h, j)
    ensures r.Failure? && r.error.MissingHierarchyEntry? ==>
              && ParentsInRange(h)
              && |h| <= r.error.index
              && IsLarge(contours, area, r.error.index)
              && (forall j :: 0 <= j < r.error.index ==> !IsForestLeaf(contours, area, h, j))
              && (forall j :: |h| <= j < r.error.index ==> !IsLarge(contours, area, j))
  {
    var filtered := FilterBySize(contours, area, MinContourArea);
    var inverted := InvertHierarchy(h);
    if inverted.Failure? {
      return Failure(inverted.error);
    }
    var children := inverted.value;
    r := FindLeaf(filtered, children);
    forall j | 0 <= j < |h|
      ensures IsKeptLeaf(filtered, children, j) <==> IsForestLeaf(contours, area, h, j)
    {
      KeptLeafIsForestLeaf(contours, area, h, children, j);
    }
    KeptIffLarge(contours, area);
  }
}
