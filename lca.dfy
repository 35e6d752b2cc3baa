/** `BinaryTree.lowestCommonAncestor` (binary-tree.js:146-158): the standard
    recursion that returns a node that matches a target, a node whose two
    subtrees both produced a result, or otherwise whichever child produced one.
    Nodes are given by their positions; the result is the position of the node
    returned, `None` for `null`. */
module Ancestors {
  import opened Options
  import opened Trees

  /** The longest common prefix of two positions: the position of the deepest
      common ancestor of the nodes at `p` and `q` (one of them if it lies above
      the other). */
  function CommonPrefix(p: Path, q: Path): (c: Path)
    ensures c <= p && c <= q
    ensures |c| == |p| || |c| == |q| || p[|c|] != q[|c|]
  {
    if p == [] || q == [] || p[0] != q[0] then []
    else [p[0]] + CommonPrefix(p[1..], q[1..])
  }

  /** The recursive `findLCA` closure, on the subtree `node` found at position
      `pos`. What it returns lies in that subtree and is one of the targets or
      an ancestor of both. */
  function FindLca(node: Tree, pos: Path, a: Path, b: Path): (r: Option<Path>)
    ensures r.Some? ==> node.Node? && pos <= r.value
    ensures r.Some? ==> IsNode(node, r.value[|pos|..])
    ensures r.Some? ==> r.value == a || r.value == b || (r.value < a && r.value < b)
    decreases node
  {
    if node.Nil? then None
    else if pos == a || pos == b then Some(pos)
    else
      var left := FindLca(node.left, pos + [Left], a, b);
      var right := FindLca(node.right, pos + [Right], a, b);
      if left.Some? && right.Some? then
        StepBelow(pos, Left, a);
        StepBelow(pos, Right, a);
        StepBelow(pos, Left, b);
        StepBelow(pos, Right, b);
        Some(pos)
      else if left.Some? then
        ChildPath(node, pos, Left, left.value);
        left
      else if right.Some? then
        ChildPath(node, pos, Right, right.value);
        right
      else None
  }

  /** A node at `q` of the child subtree at `pos + [d]`, counted from `node`
      at `pos`, is one step further down. */
  lemma ChildPath(node: Tree, pos: Path, d: Dir, q: Path)
    requires node.Node? && pos + [d] <= q
    ensures At(node, q[|pos|..]) == At(Child(node, d), q[|pos| + 1..])
  {
    assert q[|pos|..] == [d] + q[|pos| + 1..];
    ChildPosition(node, d, q[|pos| + 1..]);
  }

  /** Target `x` is a node of `root` inside the subtree at `pos`. */
  ghost predicate Below(root: Tree, pos: Path, x: Path)
  {
    pos <= x && IsNode(root, x)
  }

  /** What the search of the subtree at `pos` returns: the common ancestor when
      both targets lie in it, the one that does when only one does, `None` when
      neither does. */
  ghost function Expected(root: Tree, pos: Path, a: Path, b: Path): Option<Path>
  {
    if Below(root, pos, a) && Below(root, pos, b) then Some(CommonPrefix(a, b))
    else if Below(root, pos, a) then Some(a)
    else if Below(root, pos, b) then Some(b)
    else None
  }

  /** When one position lies below `pos + [Left]` and the other below
      `pos + [Right]`, their common prefix is `pos`. */
  lemma {:induction false} CommonPrefixOfSplit(pos: Path, x: Path, y: Path)
    requires pos + [Left] <= x && pos + [Right] <= y
    ensures CommonPrefix(x, y) == pos && CommonPrefix(y, x) == pos
  {
    if pos != [] {
      assert pos[1..] + [Left] <= x[1..] && pos[1..] + [Right] <= y[1..];
      CommonPrefixOfSplit(pos[1..], x[1..], y[1..]);
    } else {
      assert x[0] == Left && y[0] == Right;
    }
  }

  /** When `x` lies at or below `y`, their common prefix is `y`. */
  lemma {:induction false} CommonPrefixOfAncestor(x: Path, y: Path)
    requires y <= x
    ensures CommonPrefix(x, y) == y && CommonPrefix(y, x) == y
  {
  }

  /** The search of the subtree at `pos` returns `Expected`. */
  lemma {:induction false} FindLcaIsExpected(root: Tree, pos: Path, a: Path, b: Path)
    requires At(root, pos).Node?
    ensures FindLca(At(root, pos), pos, a, b) == Expected(root, pos, a, b)
    decreases At(root, pos)
  {
    var node := At(root, pos);
    if pos == a || pos == b {
      if pos == a && Below(root, pos, b) { CommonPrefixOfAncestor(b, a); }
      if pos == b && Below(root, pos, a) { CommonPrefixOfAncestor(a, b); }
    } else {
      AtStep(root, pos, Left);
      AtStep(root, pos, Right);
      StepBelow(pos, Left, a);
      StepBelow(pos, Right, a);
      StepBelow(pos, Left, b);
      StepBelow(pos, Right, b);
      var l, r := pos + [Left], pos + [Right];
      if node.left.Node? {
        FindLcaIsExpected(root, l, a, b);
      } else {
        NothingBelowNil(root, l, a);
        NothingBelowNil(root, l, b);
      }
      if node.right.Node? {
        FindLcaIsExpected(root, r, a, b);
      } else {
        NothingBelowNil(root, r, a);
        NothingBelowNil(root, r, b);
      }
      if Below(root, l, a) && Below(root, r, b) { CommonPrefixOfSplit(pos, a, b); }
      if Below(root, l, b) && Below(root, r, a) { CommonPrefixOfSplit(pos, b, a); }
    }
  }

  lemma NothingBelowNil(root: Tree, pos: Path, x: Path)
    requires At(root, pos).Nil?
    ensures !Below(root, pos, x)
  {
    if Below(root, pos, x) { PrefixIsNode(root, x, pos); }
  }

  /** `BinaryTree.lowestCommonAncestor(node1, node2)` on a tree whose root is
      `root`, with the two nodes at positions `a` and `b`. */
  function LowestCommonAncestor(root: Tree, a: Path, b: Path): (r: Option<Path>)
    ensures r.Some? ==> root.Node? && IsNode(root, r.value)
    ensures r.Some? ==> r.value == a || r.value == b || (r.value < a && r.value < b)
  {
    var r := FindLca(root, [], a, b);
    assert r.Some? ==> r.value[0..] == r.value;
    r
  }

  /** `null` exactly when neither target is a node of the tree; the target that
      is, when only one is; and when both are, the deepest node above (or equal
      to) both: the target itself if one lies above the other, otherwise the
      node whose two subtrees hold one target each. */
  lemma LowestCommonAncestorIsDeepestCommon(root: Tree, a: Path, b: Path)
    ensures LowestCommonAncestor(root, a, b).None? <==> !IsNode(root, a) && !IsNode(root, b)
    ensures IsNode(root, a) && !IsNode(root, b) ==> LowestCommonAncestor(root, a, b) == Some(a)
    ensures !IsNode(root, a) && IsNode(root, b) ==> LowestCommonAncestor(root, a, b) == Some(b)
    ensures IsNode(root, a) && IsNode(root, b) ==>
              var c := LowestCommonAncestor(root, a, b);
              && c == Some(CommonPrefix(a, b))
              && IsNode(root, c.value)
              && (a <= b ==> c.value == a)
              && (b <= a ==> c.value == b)
              && (!(a <= b) && !(b <= a) ==>
                    ((c.value + [Left] <= a && c.value + [Right] <= b)
                     || (c.value + [Right] <= a && c.value + [Left] <= b)))
  {
    if root.Nil? {
      AtNil(a);
      AtNil(b);
    } else {
      FindLcaIsExpected(root, [], a, b);
      if IsNode(root, a) && IsNode(root, b) {
        var c := CommonPrefix(a, b);
        PrefixIsNode(root, a, c);
        if a <= b { CommonPrefixOfAncestor(b, a); }
        if b <= a { CommonPrefixOfAncestor(a, b); }
        if !(a <= b) && !(b <= a) {
          assert |c| < |a| && |c| < |b|;
          StepBelow(c, a[|c|], a);
          StepBelow(c, b[|c|], b);
        }
      }
    }
  }
}
