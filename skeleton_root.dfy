/** Root extraction: after the spanning tree over the predicted joints is
    built, the root of the skeleton is the first joint that has no parent. */
module SkeletonRoot {
  import opened Basics

  /** The marker the spanning tree leaves in the parent array of its root. */
  const NoParent: int := -1

  /** i is the first position of parent that holds `NoParent`. */
  predicate IsFirstRoot(parent: seq<int>, i: nat)
  {
    i < |parent| && parent[i] == NoParent && forall j :: 0 <= j < i ==> parent[j] != NoParent
  }

  /** The root node: the index of the root joint and its position. */
  datatype Root = Root(index: nat, position: Vec3)

  /** Scan the parent array and stop at the first joint without a parent.
      None is the case in which no joint is a root and the skeleton cannot
      be built. */
  method SelectRoot(parent: seq<int>, joints: seq<Vec3>) returns (root: Option<Root>)
    requires |joints| == |parent|
    ensures root.Some? <==> exists i :: 0 <= i < |parent| && parent[i] == NoParent
    ensures root.Some? ==> IsFirstRoot(parent, root.value.index)
    ensures root.Some? ==> root.value.position == joints[root.value.index]
  {
    var i := 0;
    while i < |parent|
      invariant 0 <= i <= |parent|
      invariant forall j :: 0 <= j < i ==> parent[j] != NoParent
    {
      if parent[i] == NoParent {
        return Some(Root(i, joints[i]));
      }
      i := i + 1;
    }
    return None;
  }

  /** There is only one first root, so the selected root is determined by the
      parent array alone. */
  lemma FirstRootUnique(parent: seq<int>, i: nat, j: nat)
    requires IsFirstRoot(parent, i) && IsFirstRoot(parent, j)
    ensures i == j
  {
  }

  /** In a tree with exactly one parentless joint, that joint is the root. */
  lemma SingleRootSelected(parent: seq<int>, r: nat)
    requires r < |parent| && parent[r] == NoParent
    requires forall j :: 0 <= j < |parent| && j != r ==> parent[j] != NoParent
    ensures IsFirstRoot(parent, r)
  {
  }
}
