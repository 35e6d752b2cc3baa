/** `BinaryTree.nextLarger` (binary-tree.js:53-67): the smallest value in the
    tree that is strictly larger than a lower bound, or `null` if there is none. */
module NextLargerValue {
  import opened Options
  import opened Trees

  /** `r` is a correct answer of `nextLarger(lowerBound)`: absent exactly when
      no value exceeds the bound, otherwise a value of the tree above the bound
      and no larger than any other such value. */
  ghost predicate IsNextLarger(t: Tree, lowerBound: int, r: Option<int>)
  {
    && (r.None? <==> forall v :: v in Values(t) ==> v <= lowerBound)
    && (r.Some? ==> && r.value in Values(t) && r.value > lowerBound
                    && forall v :: v in Values(t) && v > lowerBound ==> r.value <= v)
  }

  /** There is only one correct answer, so the order in which the nodes are
      visited cannot change the result. */
  lemma NextLargerIsUnique(t: Tree, lowerBound: int, r1: Option<int>, r2: Option<int>)
    requires IsNextLarger(t, lowerBound, r1) && IsNextLarger(t, lowerBound, r2)
    ensures r1 == r2
  {
  }

  /** The update the source makes at each node: keep the smaller candidate. */
  function Smaller(x: Option<int>, y: Option<int>): Option<int>
  {
    if x.None? then y
    else if y.None? then x
    else if y.value < x.value then y
    else x
  }

  /** The smallest value of `t` above `lowerBound`, combined over the root and
      both subtrees. */
  function SmallestAbove(t: Tree, lowerBound: int): (r: Option<int>)
    ensures IsNextLarger(t, lowerBound, r)
  {
    if t.Nil? then None
    else
      var here := if t.val > lowerBound then Some(t.val) else None;
      var left, right := SmallestAbove(t.left, lowerBound), SmallestAbove(t.right, lowerBound);
      assert forall v :: v in Values(t) <==> v == t.val || v in Values(t.left) || v in Values(t.right);
      Smaller(Smaller(here, left), right)
  }

  /** The recursive `traverse` closure: `result` is the captured variable on
      entry and `result'` its value after the subtree `node` has been visited. */
  method Traverse(node: Tree, lowerBound: int, result: Option<int>) returns (result': Option<int>)
    ensures result' == Smaller(result, SmallestAbove(node, lowerBound))
  {
    result' := result;
    if node.Nil? {
      return;
    }
    if node.val > lowerBound && (result'.None? || node.val < result'.value) {
      result' := Some(node.val);
    }
    result' := Traverse(node.left, lowerBound, result');
    result' := Traverse(node.right, lowerBound, result');
  }

  /** `BinaryTree.nextLarger(lowerBound)` on a tree whose root is `root`. */
  method NextLarger(root: Tree, lowerBound: int) returns (r: Option<int>)
    ensures IsNextLarger(root, lowerBound, r)
  {
    r := Traverse(root, lowerBound, None);
  }
}
