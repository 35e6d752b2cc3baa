/** The data model of binary-tree.js: a `BinaryTreeNode` holds an integer value
    and optional left and right children; a `BinaryTree` holds an optional root.
    Node objects are modelled as values; a node's identity (the `===` the source
    compares nodes with) is its position, the path that leads to it from the root. */
module Trees {
  /** `Nil` is the absent node (JS `null`); `Node` is a `BinaryTreeNode`. */
  datatype Tree = Nil | Node(val: int, left: Tree, right: Tree)

  /** One step down from a node. */
  datatype Dir = Left | Right

  /** A position in a tree: the steps from the root to a node. */
  type Path = seq<Dir>

  function Child(t: Tree, d: Dir): Tree
    requires t.Node?
  {
    if d == Left then t.left else t.right
  }

  /** The subtree found by following `p` from the root of `t`; `Nil` once the
      path leaves the tree. */
  function At(t: Tree, p: Path): Tree
  {
    if p == [] || t.Nil? then t else At(Child(t, p[0]), p[1..])
  }

  /** `p` is the position of a node of `t`. */
  predicate IsNode(t: Tree, p: Path)
  {
    At(t, p).Node?
  }

  /** The position of the parent of the node at `p`. */
  function Parent(p: Path): Path
    requires p != []
  {
    p[..|p| - 1]
  }

  /** `Math.max` on two integers. */
  function Max(x: int, y: int): int
  {
    if x < y then y else x
  }

  function Size(t: Tree): nat
  {
    if t.Nil? then 0 else 1 + Size(t.left) + Size(t.right)
  }

  /** The values held by the nodes of `t`. */
  function Values(t: Tree): set<int>
  {
    if t.Nil? then {} else {t.val} + Values(t.left) + Values(t.right)
  }

  /** Following `p` and then `q` is following `p + q`. */
  lemma {:induction false} AtAppend(t: Tree, p: Path, q: Path)
    ensures At(t, p + q) == At(At(t, p), q)
  {
    if p == [] {
      assert p + q == q;
    } else if t.Nil? {
      assert At(t, p + q) == Nil;
      AtNil(q);
    } else {
      assert (p + q)[1..] == p[1..] + q;
      AtAppend(Child(t, p[0]), p[1..], q);
    }
  }

  lemma {:induction false} AtNil(p: Path)
    ensures At(Nil, p) == Nil
  {
  }

  /** One more step down from a node is that node's child. */
  lemma AtStep(t: Tree, p: Path, d: Dir)
    requires IsNode(t, p)
    ensures At(t, p + [d]) == Child(At(t, p), d)
  {
    AtAppend(t, p, [d]);
  }

  /** A position lies below `pos + [d]` exactly when it lies strictly below
      `pos` and takes step `d` there. */
  lemma StepBelow(pos: Path, d: Dir, x: Path)
    ensures pos + [d] <= x <==> pos < x && x[|pos|] == d
  {
  }

  /** Every prefix of a node's position is itself the position of a node. */
  lemma {:induction false} PrefixIsNode(t: Tree, p: Path, q: Path)
    requires q <= p && IsNode(t, p)
    ensures IsNode(t, q)
  {
    assert p == q + p[|q|..];
    AtAppend(t, q, p[|q|..]);
    if At(t, q).Nil? {
      AtNil(p[|q|..]);
    }
  }

  /** A node of the subtree `Child(t, d)` is a node of `t`, one step further down. */
  lemma ChildPosition(t: Tree, d: Dir, p: Path)
    requires t.Node?
    ensures At(t, [d] + p) == At(Child(t, d), p)
  {
  }

  /** `Values` collects exactly the values found at the node positions. */
  lemma {:induction false} ValuesAtPositions(t: Tree, v: int)
    ensures v in Values(t) <==> exists p :: IsNode(t, p) && At(t, p).val == v
  {
    if t.Node? {
      if v in Values(t) {
        if v == t.val {
          assert IsNode(t, []) && At(t, []).val == v;
        } else {
          var d := if v in Values(t.left) then Left else Right;
          ValuesAtPositions(Child(t, d), v);
          var p :| IsNode(Child(t, d), p) && At(Child(t, d), p).val == v;
          ChildPosition(t, d, p);
          assert IsNode(t, [d] + p) && At(t, [d] + p).val == v;
        }
      }
      if exists p :: IsNode(t, p) && At(t, p).val == v {
        var p :| IsNode(t, p) && At(t, p).val == v;
        if p != [] {
          ChildPosition(t, p[0], p[1..]);
          assert [p[0]] + p[1..] == p;
          ValuesAtPositions(Child(t, p[0]), v);
        }
      }
    }
  }
}
