/** Inversion of the contour hierarchy: the flat per-contour `parent`
    column becomes, for every contour index, the ascending list of the
    indices whose parent it is. */
module Hierarchy {
  import opened ContourTypes

  /** Every parent pointer is a root marker (negative) or names a column. */
  predicate ParentsInRange(h: seq<HierarchyEntry>) {
    forall i :: 0 <= i < |h| ==> h[i].parent < |h|
  }

  /** Strictly ascending, hence also free of duplicates. */
  predicate StrictlyIncreasing(s: seq<int>) {
    forall i, j :: 0 <= i < j < |s| ==> s[i] < s[j]
  }

  /** `children` is exactly the inverse of the parent pointers of `h`:
      one list per column, each holding precisely the indices pointing at
      it, in ascending order and without repetition. */
  predicate IsChildrenOf(h: seq<HierarchyEntry>, children: seq<seq<nat>>) {
    && |children| == |h|
    && (forall p, c :: 0 <= p < |children| && c in children[p] ==> c < |h|)
    && (forall p, c :: 0 <= p < |children| && 0 <= c < |h| ==> (c in children[p] <==> h[c].parent == p))
    && (forall p :: 0 <= p < |children| ==> StrictlyIncreasing(children[p]))
  }

  /** The index at which the reduce throws: the first column whose parent
      pointer is past the end of the accumulator. */
  predicate IsFirstBadParent(h: seq<HierarchyEntry>, e: ContourError) {
    && e.ParentOutOfRange?
    && e.index < |h|
    && e.parent == h[e.index].parent
    && e.parent >= |h|
    && forall j :: 0 <= j < e.index ==> h[j].parent < |h|
  }

  /** The reduce over the hierarchy columns. It starts from one empty list
      per column and, scanning upwards, appends `i` to the list of
      `parent[i]` whenever that parent is not negative; a parent that is
      not below the column count makes `acc[parent]` undefined and throws. */
  method InvertHierarchy(h: seq<HierarchyEntry>) returns (r: Result<seq<seq<nat>>, ContourError>)
    ensures r.Success? <==> ParentsInRange(h)
    ensures r.Success? ==> IsChildrenOf(h, r.value)
    // a root (negative parent) is listed under no contour
    ensures r.Success? ==> forall p, c :: 0 <= p < |h| && 0 <= c < |h| && h[c].parent < 0 ==> c !in r.value[p]
    ensures r.Failure? ==> IsFirstBadParent(h, r.error)
  {
    var acc: seq<seq<nat>> := seq(|h|, _ => []);
    var i: nat := 0;
    while i < |h|
      invariant i <= |h|
      invariant |acc| == |h|
      invariant forall j :: 0 <= j < i ==> h[j].parent < |h|
      invariant forall p, c :: 0 <= p < |h| && c in acc[p] ==> c < i
      invariant forall p, c :: 0 <= p < |h| && 0 <= c < |h| ==> (c in acc[p] <==> c < i && h[c].parent == p)
      invariant forall p :: 0 <= p < |h| ==> StrictlyIncreasing(acc[p])
    {
      var parent := h[i].parent;
      if parent >= 0 {
        if parent >= |h| {
          return Failure(ParentOutOfRange(i, parent));
        }
        AppendLargerKeepsAscending(acc[parent], i);
        acc := acc[parent := acc[parent] + [i]];
      }
      i := i + 1;
    }
    return Success(acc);
  }

  /** Appending an element above every present one keeps a list ascending. */
  lemma AppendLargerKeepsAscending(s: seq<nat>, x: nat)
    requires StrictlyIncreasing(s)
    requires forall y :: y in s ==> y < x
    ensures StrictlyIncreasing(s + [x])
  {
    forall i, j | 0 <= i < j < |s + [x]|
      ensures (s + [x])[i] < (s + [x])[j]
    {
      if j == |s| {
        assert s[i] in s;
      }
    }
  }

  /** Two strictly ascending lists with the same elements are equal. */
  lemma {:induction false} AscendingListsDeterminedBySet(a: seq<int>, b: seq<int>)
    requires StrictlyIncreasing(a) && StrictlyIncreasing(b)
    requires forall x :: x in a <==> x in b
    ensures a == b
  {
    if a != [] {
      assert a[0] in a;
    }
    if b != [] {
      assert b[0] in b;
    }
    if a != [] {
      var ka :| 0 <= ka < |a| && a[ka] == b[0];
      var kb :| 0 <= kb < |b| && b[kb] == a[0];
      assert a[0] <= a[ka] && b[0] <= b[kb];
      forall x
        ensures x in a[1..] <==> x in b[1..]
      {
        if x in a[1..] {
          var k :| 1 <= k < |a| && a[k] == x;
          assert a[0] < x;
          assert x in b;
        }
        if x in b[1..] {
          var k :| 1 <= k < |b| && b[k] == x;
          assert b[0] < x;
          assert x in a;
        }
      }
      AscendingListsDeterminedBySet(a[1..], b[1..]);
      assert a == [a[0]] + a[1..];
      assert b == [b[0]] + b[1..];
    }
  }

  /** The inverse relation pins the children lists down completely: any two
      results that satisfy it for the same hierarchy are identical. */
  lemma {:induction false} ChildrenListsUnique(h: seq<HierarchyEntry>, c1: seq<seq<nat>>, c2: seq<seq<nat>>)
    requires IsChildrenOf(h, c1) && IsChildrenOf(h, c2)
    ensures c1 == c2
  {
    forall p | 0 <= p < |c1|
      ensures c1[p] == c2[p]
    {
      forall x: int
        ensures x in c1[p] <==> x in c2[p]
      {
        if 0 <= x < |h| {
          assert x in c1[p] <==> h[x].parent == p;
          assert x in c2[p] <==> h[x].parent == p;
        }
      }
      AscendingListsDeterminedBySet(c1[p], c2[p]);
    }
  }
}
