/** Leaf selection: `findIndex` over the filtered contours, looking for a kept
    contour none of whose children were kept, i.e. a leaf of the forest the
    kept contours induce, not necessarily a leaf of the raw hierarchy. */
module LeafSelection {
  import opened ContourTypes

  /** JavaScript truthiness of `contours[j]`: an index past the end reads
      `undefined`, which counts as not kept. */
  predicate IsKept<C>(filtered: seq<Option<C>>, j: int) {
    0 <= j < |filtered| && filtered[j].Some?
  }

  /** The `every` callback over one children list: no child was kept. */
  predicate NoChildKept<C>(filtered: seq<Option<C>>, kids: seq<nat>) {
    forall k :: 0 <= k < |kids| ==> !IsKept(filtered, kids[k])
  }

  /** The `findIndex` predicate at index `i`, where it does not throw. */
  predicate IsKeptLeaf<C>(filtered: seq<Option<C>>, children: seq<seq<nat>>, i: int) {
    IsKept(filtered, i) && i < |children| && NoChildKept(filtered, children[i])
  }

  /** `contours.findIndex(...)`. It returns the least index satisfying the
      predicate, or -1 when none does. A kept contour whose hierarchy entry
      is missing makes `hierarchy[i].children` throw; the `&&` keeps that
      lookup from happening for a dropped contour. */
  method FindLeaf<C>(filtered: seq<Option<C>>, children: seq<seq<nat>>) returns (r: Result<int, ContourError>)
    ensures r.Success? ==> -1 <= r.value < |filtered|
    ensures r.Success? && r.value >= 0 ==> IsKeptLeaf(filtered, children, r.value)
    ensures r.Success? && r.value >= 0 ==> forall j :: 0 <= j < r.value ==> !IsKeptLeaf(filtered, children, j)
    ensures r.Success? && r.value == -1 ==> forall j :: 0 <= j < |filtered| ==> !IsKeptLeaf(filtered, children, j)
    ensures r.Success? && r.value == -1 ==> forall j :: |children| <= j < |filtered| ==> !IsKept(filtered, j)
    // `every` over an empty list holds, so a kept childless contour always qualifies
    ensures r.Success? && r.value == -1 ==> forall j :: 0 <= j < |children| && IsKept(filtered, j) ==> children[j] != []
    ensures r.Failure? ==> r.error.MissingHierarchyEntry?
    ensures r.Failure? ==> var e := r.error.index;
      && |children| <= e
      && IsKept(filtered, e)
      && (forall j :: 0 <= j < e ==> !IsKeptLeaf(filtered, children, j))
      && (forall j :: |children| <= j < e ==> !IsKept(filtered, j))
  {
    var i: nat := 0;
    while i < |filtered|
      invariant i <= |filtered|
      invariant forall j :: 0 <= j < i ==> !IsKeptLeaf(filtered, children, j)
      invariant forall j :: |children| <= j < i ==> !IsKept(filtered, j)
    {
      if filtered[i].Some? {
        if i >= |children| {
          return Failure(MissingHierarchyEntry(i));
        }
        if NoChildKept(filtered, children[i]) {
          return Success(i);
        }
      }
      i := i + 1;
    }
    forall j | 0 <= j < |children| && IsKept(filtered, j)
      ensures children[j] != []
    {
      assert !IsKeptLeaf(filtered, children, j);
    }
    return Success(-1);
  }
}
