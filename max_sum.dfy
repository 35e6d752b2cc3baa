/** `BinaryTree.maxSum` (binary-tree.js:35-48): the largest sum of values along a
    path of the tree. A path climbs from one node up to a peak node and goes down
    again, never visiting a node twice; it may start and end anywhere. */
module MaxPathSum {
  import opened Options
  import opened Trees

  /** `Number.MIN_SAFE_INTEGER`, the initial value of the running maximum. */
  const MinSafeInteger: int := -9007199254740991

  /** Sum of the values on the downward path `p` from the root of `t`, the root
      and the node at `p` included. */
  function DownSum(t: Tree, p: Path): int
    requires IsNode(t, p)
  {
    if p == [] then t.val else t.val + DownSum(Child(t, p[0]), p[1..])
  }

  /** The best downward extension from the root of `t`; 0 for the empty tree. */
  function Down(t: Tree): int
  {
    if t.Nil? then 0 else t.val + Max(Max(0, Down(t.left)), Max(0, Down(t.right)))
  }

  /** A branch may be left out of a path, so it contributes at least 0. */
  function Arm(t: Tree): int
  {
    Max(0, Down(t))
  }

  /** The best sum of a path whose peak is the root of `t`. */
  function Through(t: Tree): int
    requires t.Node?
  {
    t.val + Arm(t.left) + Arm(t.right)
  }

  /** The largest `Through` over all nodes of a non-empty tree. */
  function MaxThrough(t: Tree): int
    requires t.Node?
  {
    var l := if t.left.Nil? then Through(t) else MaxThrough(t.left);
    var r := if t.right.Nil? then Through(t) else MaxThrough(t.right);
    Max(Through(t), Max(l, r))
  }

  /** No downward path from the root of `t` sums to more than `Down(t)`. */
  lemma {:induction false} DownIsUpperBound(t: Tree, p: Path)
    requires IsNode(t, p)
    ensures DownSum(t, p) <= Down(t)
  {
    if p != [] {
      DownIsUpperBound(Child(t, p[0]), p[1..]);
    }
  }

  /** A downward path from the root of a non-empty `t` that sums to `Down(t)`. */
  function BestDownPath(t: Tree): (p: Path)
    requires t.Node?
    ensures IsNode(t, p) && DownSum(t, p) == Down(t)
  {
    if Max(Arm(t.left), Arm(t.right)) == 0 then []
    else if Arm(t.left) >= Arm(t.right) then [Left] + BestDownPath(t.left)
    else [Right] + BestDownPath(t.right)
  }

  /** A branch of a path below its peak: absent, or a downward path in `t`. */
  predicate IsArm(t: Tree, arm: Option<Path>)
  {
    arm.Some? ==> IsNode(t, arm.value)
  }

  function ArmSum(t: Tree, arm: Option<Path>): int
    requires IsArm(t, arm)
  {
    if arm.None? then 0 else DownSum(t, arm.value)
  }

  /** No branch of `t` sums to more than `Arm(t)`. */
  lemma ArmIsUpperBound(t: Tree, arm: Option<Path>)
    requires IsArm(t, arm)
    ensures ArmSum(t, arm) <= Arm(t)
  {
    if arm.Some? { DownIsUpperBound(t, arm.value); }
  }

  /** A branch of `t` that sums to `Arm(t)`. */
  function BestArm(t: Tree): (arm: Option<Path>)
    ensures IsArm(t, arm) && ArmSum(t, arm) == Arm(t)
  {
    if Down(t) > 0 then Some(BestDownPath(t)) else None
  }

  /** A simple path of a tree: the position of its peak node and the branches
      it follows down the peak's left and right subtrees. */
  datatype TreePath = TreePath(peak: Path, leftArm: Option<Path>, rightArm: Option<Path>)

  predicate IsTreePath(t: Tree, w: TreePath)
  {
    IsNode(t, w.peak) && IsArm(At(t, w.peak).left, w.leftArm) && IsArm(At(t, w.peak).right, w.rightArm)
  }

  /** The sum of the values of the nodes on `w`. */
  function PathSum(t: Tree, w: TreePath): int
    requires IsTreePath(t, w)
  {
    var n := At(t, w.peak);
    n.val + ArmSum(n.left, w.leftArm) + ArmSum(n.right, w.rightArm)
  }

  /** `Through` at a node bounds every path that peaks there: the value the
      source combines at each node is the best path through it. */
  lemma ThroughIsUpperBound(t: Tree, w: TreePath)
    requires IsTreePath(t, w)
    ensures PathSum(t, w) <= Through(At(t, w.peak))
  {
    ArmIsUpperBound(At(t, w.peak).left, w.leftArm);
    ArmIsUpperBound(At(t, w.peak).right, w.rightArm);
  }

  /** `MaxThrough(t)` bounds `Through` at every node of `t`. */
  lemma {:induction false} MaxThroughIsUpperBound(t: Tree, q: Path)
    requires t.Node? && IsNode(t, q)
    ensures Through(At(t, q)) <= MaxThrough(t)
  {
    if q != [] {
      assert At(t, q) == At(Child(t, q[0]), q[1..]);
      MaxThroughIsUpperBound(Child(t, q[0]), q[1..]);
    }
  }

  /** The position of a node of `t` at which `MaxThrough(t)` is attained. */
  function BestPeak(t: Tree): (q: Path)
    requires t.Node?
    ensures IsNode(t, q) && Through(At(t, q)) == MaxThrough(t)
  {
    if t.left.Node? && MaxThrough(t) == MaxThrough(t.left) then [Left] + BestPeak(t.left)
    else if t.right.Node? && MaxThrough(t) == MaxThrough(t.right) then [Right] + BestPeak(t.right)
    else []
  }

  /** A path of a non-empty `t` whose sum is `MaxThrough(t)`. */
  function BestPath(t: Tree): (w: TreePath)
    requires t.Node?
    ensures IsTreePath(t, w) && PathSum(t, w) == MaxThrough(t)
  {
    var q := BestPeak(t);
    TreePath(q, BestArm(At(t, q).left), BestArm(At(t, q).right))
  }

  /** The result of `maxSum` is the running maximum started at the sentinel and
      combined with the best path through every node; on the empty tree it is
      the sentinel. */
  function MaxSumOf(t: Tree): int
  {
    if t.Nil? then MinSafeInteger else Max(MinSafeInteger, MaxThrough(t))
  }

  /** `maxSum` bounds the sum of every path of the tree, and unless it is the
      sentinel some path (`BestPath`) sums to exactly that. */
  lemma MaxSumIsUpperBound(t: Tree, w: TreePath)
    requires IsTreePath(t, w)
    ensures PathSum(t, w) <= MaxSumOf(t)
    ensures MaxSumOf(t) == MinSafeInteger || PathSum(t, BestPath(t)) == MaxSumOf(t)
  {
    assert t.Node? by { if t.Nil? { AtNil(w.peak); } }
    ThroughIsUpperBound(t, w);
    MaxThroughIsUpperBound(t, w.peak);
  }

  /** When no node holds a positive value, the best path is a single node, so
      `MaxThrough` is the largest value in the tree. */
  lemma {:induction false} NonPositiveTreeBestIsLargestValue(t: Tree)
    requires t.Node?
    requires forall v :: v in Values(t) ==> v <= 0
    ensures Down(t) == t.val && Through(t) == t.val
    ensures MaxThrough(t) in Values(t)
    ensures forall v :: v in Values(t) ==> v <= MaxThrough(t)
  {
    assert Values(t.left) <= Values(t) && Values(t.right) <= Values(t);
    if t.left.Node? { NonPositiveTreeBestIsLargestValue(t.left); }
    if t.right.Node? { NonPositiveTreeBestIsLargestValue(t.right); }
  }

  /** The recursive `findMaxSum` closure. The captured running maximum is passed
      in as `maxSum` and handed back updated as `maxSum'`; the return value is
      the best downward extension. */
  method FindMaxSum(node: Tree, maxSum: int) returns (down: int, maxSum': int)
    ensures down == Down(node)
    ensures maxSum' == if node.Nil? then maxSum else Max(maxSum, MaxThrough(node))
  {
    if node.Nil? {
      return 0, maxSum;
    }
    var leftDown, afterLeft := FindMaxSum(node.left, maxSum);
    var leftSum := Max(0, leftDown);
    var rightDown, afterRight := FindMaxSum(node.right, afterLeft);
    var rightSum := Max(0, rightDown);
    maxSum' := Max(afterRight, node.val + leftSum + rightSum);
    down := node.val + Max(leftSum, rightSum);
  }

  /** `BinaryTree.maxSum` on a tree whose root is `root`. */
  method MaxSum(root: Tree) returns (r: int)
    ensures r == MaxSumOf(root)
    ensures root.Nil? ==> r == MinSafeInteger
    ensures root.Node? ==> r >= MinSafeInteger && r >= Through(root)
  {
    var maxSum := MinSafeInteger;
    var _, updated := FindMaxSum(root, maxSum);
    r := updated;
  }
}
