/** `BinaryTree.areCousins` (binary-tree.js:73-96). Its comment promises "same
    level but different parents", but the code never compares levels: it answers
    whether the traversal reaches both nodes and records different parents for
    them. `AreCousins` models the code as written; `AreCousinsAtSameLevel` adds
    the level comparison the comment asks for. Target nodes are given by their
    positions; a position that does not hold a node stands for a node object
    that is not in the tree. */
module CousinCheck {
  import opened Options
  import opened Trees

  /** The `targetDepth` the source passes to the traversal and returns at a
      matched node. */
  const TargetDepth: int := -1

  /** The position of the parent node as the traversal passes it down:
      `null` for the root. */
  function ParentOf(p: Path): Option<Path>
  {
    if p == [] then None else Some(Parent(p))
  }

  /** The traversal matches target `x`: it is a node, and the other target is
      not above it (the traversal does not descend below a matched node). */
  ghost predicate Reached(root: Tree, x: Path, other: Path)
  {
    IsNode(root, x) && !(other < x)
  }

  /** Target `x` is matched inside the subtree at `pos`. */
  ghost predicate ReachedBelow(root: Tree, pos: Path, x: Path, other: Path)
  {
    pos <= x && Reached(root, x, other)
  }

  /** How many targets the traversal matches inside the subtree at `pos`. */
  ghost function Count(root: Tree, pos: Path, a: Path, b: Path): nat
  {
    (if ReachedBelow(root, pos, a, b) then 1 else 0) + (if ReachedBelow(root, pos, b, a) then 1 else 0)
  }

  /** The two children of the node at `pos` are the two targets. */
  ghost predicate ChildrenAreTargets(root: Tree, pos: Path, a: Path, b: Path)
  {
    && IsNode(root, pos + [Left]) && IsNode(root, pos + [Right])
    && ((a == pos + [Left] && b == pos + [Right]) || (a == pos + [Right] && b == pos + [Left]))
  }

  /** What `areCousins` answers, as the code is written: both nodes are matched
      (neither lies below the other) and their recorded parents differ. */
  ghost predicate CousinsAsWritten(t: Tree, a: Path, b: Path)
  {
    IsNode(t, a) && IsNode(t, b) && !(a <= b) && !(b <= a) && Parent(a) != Parent(b)
  }

  /** Cousins as the comment defines them: nodes at the same level with
      different parents. */
  ghost predicate Cousins(t: Tree, a: Path, b: Path)
  {
    IsNode(t, a) && IsNode(t, b) && a != [] && b != [] && |a| == |b| && Parent(a) != Parent(b)
  }

  lemma NotAboveChild(pos: Path, d: Dir, x: Path)
    requires !(x < pos) && x != pos
    ensures !(x < pos + [d])
  {
  }

  /** A target matched strictly below a node is matched below exactly one of
      its children. */
  lemma ReachedBelowSplits(root: Tree, pos: Path, x: Path, other: Path)
    requires pos != x
    ensures ReachedBelow(root, pos, x, other) <==>
              ReachedBelow(root, pos + [Left], x, other) || ReachedBelow(root, pos + [Right], x, other)
    ensures !(ReachedBelow(root, pos + [Left], x, other) && ReachedBelow(root, pos + [Right], x, other))
  {
    StepBelow(pos, Left, x);
    StepBelow(pos, Right, x);
  }

  /** A target matched below a node that is not itself a target is matched
      below exactly one of its children. */
  lemma CountSplits(root: Tree, pos: Path, a: Path, b: Path)
    requires IsNode(root, pos) && pos != a && pos != b
    ensures Count(root, pos, a, b) == Count(root, pos + [Left], a, b) + Count(root, pos + [Right], a, b)
  {
    ReachedBelowSplits(root, pos, a, b);
    ReachedBelowSplits(root, pos, b, a);
  }

  /** The recursive `traverse` closure. The captured `found`, `parent1` and
      `parent2` are passed in and handed back updated; `node` is the subtree at
      position `pos` of the whole tree `root`, and `parent` the position of its
      parent. */
  method Traverse(ghost root: Tree, node: Tree, pos: Path, parent: Option<Path>, depth: int, targetDepth: int,
                  a: Path, b: Path, found: nat, parent1: Option<Path>, parent2: Option<Path>)
    returns (ret: int, found': nat, parent1': Option<Path>, parent2': Option<Path>)
    requires At(root, pos) == node && parent == ParentOf(pos)
    requires depth == |pos| && targetDepth == TargetDepth
    requires a != b && !(a < pos) && !(b < pos)
    requires found + Count(root, pos, a, b) <= 2
    requires pos == [] ==> node.Node? && found == 0
    ensures found' == found + Count(root, pos, a, b)
    ensures parent1' == if ReachedBelow(root, pos, a, b) then ParentOf(a) else parent1
    ensures parent2' == if ReachedBelow(root, pos, b, a) then ParentOf(b) else parent2
    ensures ret >= TargetDepth
    ensures ret == TargetDepth <==> node.Node? && (pos == a || pos == b || ChildrenAreTargets(root, pos, a, b))
    decreases node
  {
    if node.Nil? || found == 2 {
      if node.Nil? {
        forall x | pos <= x
          ensures !IsNode(root, x)
        {
          if IsNode(root, x) { PrefixIsNode(root, x, pos); }
        }
      } else {
        CountBounds(root, pos, a, b);
      }
      return depth - 1, found, parent1, parent2;
    }
    if pos == a || pos == b {
      found' := found + 1;
      parent1', parent2' := parent1, parent2;
      if pos == a {
        parent1' := parent;
      }
      if pos == b {
        parent2' := parent;
      }
      return targetDepth, found', parent1', parent2';
    }
    AtStep(root, pos, Left);
    AtStep(root, pos, Right);
    CountSplits(root, pos, a, b);
    ReachedBelowSplits(root, pos, a, b);
    ReachedBelowSplits(root, pos, b, a);
    NotAboveChild(pos, Left, a);
    NotAboveChild(pos, Left, b);
    NotAboveChild(pos, Right, a);
    NotAboveChild(pos, Right, b);
    assert Parent(pos + [Left]) == pos && Parent(pos + [Right]) == pos;
    var leftDepth, afterLeft, leftParent1, leftParent2 :=
      Traverse(root, node.left, pos + [Left], Some(pos), depth + 1, targetDepth, a, b, found, parent1, parent2);
    var rightDepth, afterRight, rightParent1, rightParent2 :=
      Traverse(root, node.right, pos + [Right], Some(pos), depth + 1, targetDepth, a, b,
               afterLeft, leftParent1, leftParent2);
    DepthOfInnerNode(root, pos, a, b, leftDepth, rightDepth);
    return Max(leftDepth, rightDepth), afterRight, rightParent1, rightParent2;
  }

  /** At a node that is not a target, with no target above it, a target
      reached below it keeps `Count` positive. */
  lemma CountBounds(root: Tree, pos: Path, a: Path, b: Path)
    requires IsNode(root, pos) && !(a < pos) && !(b < pos) && a != b
    ensures (pos == a || pos == b) ==> Count(root, pos, a, b) >= 1
    ensures ChildrenAreTargets(root, pos, a, b) ==> Count(root, pos, a, b) == 2
  {
  }

  /** Both children of `pos` return `TargetDepth` only when they are the two
      targets: the targets cannot lie on both sides and also both below one. */
  lemma SidesAreDisjoint(root: Tree, pos: Path, a: Path, b: Path)
    ensures ((pos + [Left] == a || pos + [Left] == b || ChildrenAreTargets(root, pos + [Left], a, b))
             && (pos + [Right] == a || pos + [Right] == b || ChildrenAreTargets(root, pos + [Right], a, b)))
            ==> (a == pos + [Left] || a == pos + [Right]) && (b == pos + [Left] || b == pos + [Right])
  {
    var l, r := pos + [Left], pos + [Right];
    assert (l + [Left])[|pos|] == Left && (l + [Right])[|pos|] == Left;
    assert (r + [Left])[|pos|] == Right && (r + [Right])[|pos|] == Right;
    assert l[|pos|] == Left && r[|pos|] == Right;
  }

  /** At a node that is not a target, the larger of the children's depths is
      `TargetDepth` exactly when the two children are the two targets. */
  lemma DepthOfInnerNode(root: Tree, pos: Path, a: Path, b: Path, leftDepth: int, rightDepth: int)
    requires a != b
    requires leftDepth >= TargetDepth && rightDepth >= TargetDepth
    requires leftDepth == TargetDepth <==>
               (IsNode(root, pos + [Left])
                && (pos + [Left] == a || pos + [Left] == b || ChildrenAreTargets(root, pos + [Left], a, b)))
    requires rightDepth == TargetDepth <==>
               (IsNode(root, pos + [Right])
                && (pos + [Right] == a || pos + [Right] == b || ChildrenAreTargets(root, pos + [Right], a, b)))
    ensures Max(leftDepth, rightDepth) >= TargetDepth
    ensures Max(leftDepth, rightDepth) == TargetDepth <==> ChildrenAreTargets(root, pos, a, b)
  {
    SidesAreDisjoint(root, pos, a, b);
  }

  /** `BinaryTree.areCousins(node1, node2)` on a tree whose root is `root`, with
      the two nodes at positions `a` and `b`. */
  method AreCousins(root: Tree, a: Path, b: Path) returns (r: bool)
    ensures r <==> CousinsAsWritten(root, a, b)
  {
    if root.Nil? || a == b {
      return false;
    }
    var depth, found, parent1, parent2 := Traverse(root, root, [], None, 0, TargetDepth, a, b, 0, None, None);
    r := found == 2 && parent1 != parent2 && depth != TargetDepth;
  }

  /** Levels are never compared: in the tree 1(2(4), 3) the node 4, on level
      2, and the node 3, on level 1, are reported as cousins. */
  lemma AsWrittenIgnoresLevels()
    ensures var t := Node(1, Node(2, Node(4, Nil, Nil), Nil), Node(3, Nil, Nil));
            CousinsAsWritten(t, [Left, Left], [Right]) && !Cousins(t, [Left, Left], [Right])
  {
    var t := Node(1, Node(2, Node(4, Nil, Nil), Nil), Node(3, Nil, Nil));
    assert At(t, [Left, Left]) == Node(4, Nil, Nil);
    assert At(t, [Right]) == Node(3, Nil, Nil);
    assert Parent([Left, Left]) == [Left] && Parent([Right]) == [];
  }

  /** Cousins are exactly the pairs the code accepts that also lie on the same
      level. */
  lemma CousinsAreAsWrittenOnOneLevel(t: Tree, a: Path, b: Path)
    ensures Cousins(t, a, b) <==> CousinsAsWritten(t, a, b) && |a| == |b|
  {
  }

  /** `areCousins` with the level comparison its comment asks for: the depth of
      a node is the length of its position. */
  method AreCousinsAtSameLevel(root: Tree, a: Path, b: Path) returns (r: bool)
    ensures r <==> Cousins(root, a, b)
  {
    r := AreCousins(root, a, b);
    r := r && |a| == |b|;
    CousinsAreAsWrittenOnOneLevel(root, a, b);
  }
}
