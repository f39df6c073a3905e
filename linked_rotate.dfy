/** Single rotations on linked nodes, as done by `rotate_on_parent`
    (RBTree.rs:585-628) and by the two rotations of
    `red_black_tree_insertion_cover` (RBTree.rs:232-242, 255-273 and their
    mirrors): a node `X` and its child `Y` trade places, the inner subtree
    of `Y` moves under `X`, and the link from the node above (or the root)
    is turned to `Y`. */
module LinkedRotation {
  import opened Trees
  import opened LinkedTree

  /** What a rotation leaves as it is below the link it turns: its three
      moving subtrees `a`, `b`, `c` with their inner links, and the
      back-links of `a` to `pa` and of `c` to `pc`. */
  ghost predicate Kept(a: Shape, pa: Node, b: Shape, c: Shape, pc: Node)
    reads (Nodes(a) + Nodes(b) + Nodes(c))`left, (Nodes(a) + Nodes(b) + Nodes(c))`right
    reads (Nodes(a) + Under(b) + Nodes(c))`parent
  {
    Wired(a) && Parented(a, pa) && Inner(b) && Wired(c) && Parented(c, pc)
  }

  /** What a rotation leaves as it is above the link it turns. */
  ghost predicate KeptAbove(tr: Trail)
    reads (if tr.Below? then Nodes(tr.lk.other) else {})`left, (if tr.Below? then Nodes(tr.lk.other) else {})`right
    reads (if tr.Below? then Nodes(tr.lk.other) else {})`parent, (if tr.Below? then {tr.lk.node} else {})`parent
    reads (if tr.Below? then TrailNodes(tr.rest) else {})`left, (if tr.Below? then TrailNodes(tr.rest) else {})`right
    reads (if tr.Below? then TrailNodes(tr.rest) else {})`parent
  {
    tr.Below? ==> Hung(tr.lk, Up(tr.rest)) && TrailOk(tr.rest, tr.lk.node)
  }

  // ---------------------------------------------------------------------
  // Left rotation: Cell(X, a, Cell(Y, b, c)) becomes Cell(Y, Cell(X, a, b), c)

  /** A left rotation keeps the nodes and repeats none. */
  lemma {:induction false} RotLNodes(X: Node, Y: Node, a: Shape, b: Shape, c: Shape)
    requires Distinct(Cell(X, a, Cell(Y, b, c)))
    ensures Distinct(Cell(Y, Cell(X, a, b), c))
    ensures Nodes(Cell(Y, Cell(X, a, b), c)) == Nodes(Cell(X, a, Cell(Y, b, c)))
  {
  }

  /** A left rotation within a whole shape keeps its nodes. */
  lemma {:induction false} RotLFillNodes(X: Node, Y: Node, a: Shape, b: Shape, c: Shape, tr: Trail)
    requires Distinct(Cell(X, a, Cell(Y, b, c)))
    ensures Nodes(Fill(Cell(Y, Cell(X, a, b), c), tr)) == Nodes(Fill(Cell(X, a, Cell(Y, b, c)), tr))
  {
    RotLNodes(X, Y, a, b, c);
    FillNodes(Cell(X, a, Cell(Y, b, c)), tr);
    FillNodes(Cell(Y, Cell(X, a, b), c), tr);
  }

  /** The nodes a left rotation writes are apart from the pieces it keeps. */
  lemma {:induction false} RotLApart(X: Node, Y: Node, a: Shape, b: Shape, c: Shape, others: set<Node>)
    requires Distinct(Cell(X, a, Cell(Y, b, c))) && Nodes(Cell(X, a, Cell(Y, b, c))) !! others
    ensures X != Y
    ensures X !in Nodes(a) && X !in Nodes(b) && X !in Nodes(c) && X !in others
    ensures Y !in Nodes(a) && Y !in Nodes(b) && Y !in Nodes(c) && Y !in others
    ensures b.Cell? ==> b.node !in Nodes(a) && b.node !in Under(b) && b.node !in Nodes(c) && b.node !in others
  {
    var yc := Cell(Y, b, c);
    assert X in Nodes(Cell(X, a, yc)) && Y in Nodes(Cell(X, a, yc));
    assert Distinct(yc) && Nodes(a) !! Nodes(yc) && X !in Nodes(yc);
    if b.Cell? {
      assert b.node in Nodes(Cell(X, a, yc)) && b.node in Nodes(yc);
      assert Distinct(b);
    }
  }

  /** A left rotation within a whole shape with no repeated node, and the
      nodes it writes apart from the pieces it keeps. */
  lemma {:induction false} ApartRotL(X: Node, Y: Node, a: Shape, b: Shape, c: Shape, tr: Trail)
    requires Distinct(Fill(Cell(X, a, Cell(Y, b, c)), tr))
    ensures Distinct(Fill(Cell(Y, Cell(X, a, b), c), tr))
    ensures X != Y
    ensures X !in Nodes(a) && X !in Nodes(b) && X !in Nodes(c) && X !in TrailNodes(tr)
    ensures Y !in Nodes(a) && Y !in Nodes(b) && Y !in Nodes(c) && Y !in TrailNodes(tr)
    ensures b.Cell? ==> b.node !in Nodes(a) && b.node !in Under(b) && b.node !in Nodes(c) && b.node !in TrailNodes(tr)
    ensures tr.Below? ==>
      var up := tr.lk.node;
      && up !in Nodes(a) && up !in Nodes(b) && up !in Nodes(c)
      && up !in Nodes(tr.lk.other) && up !in TrailNodes(tr.rest)
  {
    var s, s' := Cell(X, a, Cell(Y, b, c)), Cell(Y, Cell(X, a, b), c);
    FillDistinct(s, tr);
    RotLNodes(X, Y, a, b, c);
    FillDistinct(s', tr);
    RotLApart(X, Y, a, b, c, TrailNodes(tr));
    if tr.Below? {
      UpApart(tr);
      assert tr.lk.node in TrailNodes(tr);
    }
  }

  /** The pieces of a linked whole tree around a node `X` with right child
      `Y`. */
  lemma {:induction false} OpenRotL(X: Node, Y: Node, a: Shape, b: Shape, c: Shape, tr: Trail)
    requires Linked(Fill(Cell(X, a, Cell(Y, b, c)), tr), null)
    ensures X.left == Top(a) && X.right == Y && X.parent == Up(tr)
    ensures Y.left == Top(b) && Y.right == Top(c) && Y.parent == X
    ensures Kept(a, X, b, c, Y) && KeptAbove(tr)
    ensures tr.Below? ==> Child(tr.lk.node, tr.lk.dir) == X && Child(tr.lk.node, Flip(tr.lk.dir)) == Top(tr.lk.other)
  {
    OpenFill(Cell(X, a, Cell(Y, b, c)), tr);
    LinkedHang(Link(Right, X, a), Cell(Y, b, c), Up(tr));
    LinkedHang(Link(Left, Y, c), b, X);
    LinkedInner(b, Y);
  }

  /** The pieces put back together after a left rotation. */
  lemma {:induction false} CloseRotL(X: Node, Y: Node, a: Shape, b: Shape, c: Shape, tr: Trail)
    requires Distinct(Fill(Cell(Y, Cell(X, a, b), c), tr))
    requires Y.left == X && Y.right == Top(c) && Y.parent == Up(tr)
    requires X.left == Top(a) && X.right == Top(b) && X.parent == Y
    requires Kept(a, X, b, c, Y) && KeptAbove(tr) && (b.Cell? ==> b.node.parent == X)
    requires tr.Below? ==> Child(tr.lk.node, tr.lk.dir) == Y && Child(tr.lk.node, Flip(tr.lk.dir)) == Top(tr.lk.other)
    ensures Linked(Fill(Cell(Y, Cell(X, a, b), c), tr), null)
  {
    var s' := Cell(Y, Cell(X, a, b), c);
    FillDistinct(s', tr);
    LinkedInner(b, X);
    CloseFill(s', tr);
  }

  /** The pointer writes of a left rotation: the link from above to `Y`,
      the inner child of `Y` under `X`, `X` under `Y`, then the two
      back-links. */
  method RotateLeftLinks(X: Node, Y: Node, up: Node?, d: Dir)
    requires X != Y && up != X && up != Y
    requires Y.left != null ==> Y.left != X && Y.left != Y && Y.left != up
    modifies X`right, X`parent, Y`left, Y`parent, {Y.left}`parent
    modifies {up}`left, {up}`right
    ensures X.right == old(Y.left) && X.parent == Y && Y.left == X && Y.parent == up
    ensures old(Y.left) != null ==> old(Y.left).parent == X
    ensures up != null ==> Child(up, d) == Y && Child(up, Flip(d)) == old(Child(up, Flip(d)))
  {
    if up != null {
      if d == Left {
        up.left := Y;
      } else {
        up.right := Y;
      }
    }
    X.right := Y.left;
    if Y.left != null {
      Y.left.parent := X;
    }
    Y.left := X;
    Y.parent := up;
    X.parent := Y;
  }

  /** The pointer writes of a left rotation keep the keys and colours of the
      pieces it moves. */
  method RotateLeftValues(X: Node, Y: Node, up: Node?, d: Dir, ghost a: Shape, ghost b: Shape, ghost c: Shape, ghost tr: Trail)
    requires X != Y && up != X && up != Y
    requires Y.left != null ==> Y.left != X && Y.left != Y && Y.left != up
    modifies X`right, X`parent, Y`left, Y`parent, {Y.left}`parent
    modifies {up}`left, {up}`right
    ensures X.right == old(Y.left) && X.parent == Y && Y.left == X && Y.parent == up
    ensures old(Y.left) != null ==> old(Y.left).parent == X
    ensures up != null ==> Child(up, d) == Y && Child(up, Flip(d)) == old(Child(up, Flip(d)))
    ensures Pieces(a, b, c, tr) == old(Pieces(a, b, c, tr))
  {
    NodesAllocated(a);
    NodesAllocated(b);
    NodesAllocated(c);
    TrailAllocated(tr);
    RotateLeftLinks(X, Y, up, d);
  }

  /** Rotates left at `X`, whose ancestors are `tr`, turning the link on
      side `d` of the node above to the right child of `X`. */
  method RotateLeftAt(X: Node, Y: Node, d: Dir, ghost a: Shape, ghost b: Shape, ghost c: Shape, ghost tr: Trail)
    requires Linked(Fill(Cell(X, a, Cell(Y, b, c)), tr), null)
    requires tr.Below? ==> d == tr.lk.dir
    modifies X`right, X`parent, Y`left, Y`parent, {Top(b)}`parent
    modifies {Up(tr)}`left, {Up(tr)}`right
    ensures Linked(Fill(Cell(Y, Cell(X, a, b), c), tr), null)
    ensures old(Abs(Cell(X, a, Cell(Y, b, c)))).Node? && old(Abs(Cell(X, a, Cell(Y, b, c)))).right.Node?
    ensures Abs(Cell(Y, Cell(X, a, b), c)) == RotateLeft(old(Abs(Cell(X, a, Cell(Y, b, c)))))
    ensures AbsTrail(tr) == old(AbsTrail(tr))
    ensures Abs(a) == old(Abs(a)) && Abs(b) == old(Abs(b)) && Abs(c) == old(Abs(c))
  {
    OpenRotL(X, Y, a, b, c, tr);
    ApartRotL(X, Y, a, b, c, tr);
    TrailAllocated(tr);
    NodesAllocated(a);
    NodesAllocated(b);
    NodesAllocated(c);
    var up := X.parent;
    RotateLeftKeep(X, Y, up, d, a, b, c, tr);
    assert KeptAbove(tr);
    CloseRotL(X, Y, a, b, c, tr);
  }

  /** The pointer writes of a left rotation keep its moving subtrees as
      they are. */
  method RotateLeftKeep(X: Node, Y: Node, up: Node?, d: Dir, ghost a: Shape, ghost b: Shape, ghost c: Shape, ghost tr: Trail)
    requires Kept(a, X, b, c, Y)
    requires X.left == Top(a) && X.right == Y && Y.left == Top(b) && Y.right == Top(c) && Y.parent == X
    requires X != Y && up != X && up != Y
    requires X !in Nodes(a) && X !in Nodes(b) && X !in Nodes(c)
    requires Y !in Nodes(a) && Y !in Nodes(b) && Y !in Nodes(c)
    requires b.Cell? ==> b.node !in Nodes(a) && b.node !in Under(b) && b.node !in Nodes(c) && b.node != up
    requires up != null ==> up !in Nodes(a) && up !in Nodes(b) && up !in Nodes(c)
    modifies X`right, X`parent, Y`left, Y`parent, {Top(b)}`parent
    modifies {up}`left, {up}`right
    ensures Kept(a, X, b, c, Y)
    ensures Y.left == X && Y.parent == up && X.right == Top(b) && X.parent == Y && (b.Cell? ==> b.node.parent == X)
    ensures up != null ==> Child(up, d) == Y && Child(up, Flip(d)) == old(Child(up, Flip(d)))
    ensures Pieces(a, b, c, tr) == old(Pieces(a, b, c, tr))
  {
    NodesAllocated(a);
    NodesAllocated(b);
    NodesAllocated(c);
    RotateLeftValues(X, Y, up, d, a, b, c, tr);
  }

  // ---------------------------------------------------------------------
  // Right rotation: Cell(X, Cell(Y, a, b), c) becomes Cell(Y, a, Cell(X, b, c))

  /** A right rotation keeps the nodes and repeats none. */
  lemma {:induction false} RotRNodes(X: Node, Y: Node, a: Shape, b: Shape, c: Shape)
    requires Distinct(Cell(X, Cell(Y, a, b), c))
    ensures Distinct(Cell(Y, a, Cell(X, b, c)))
    ensures Nodes(Cell(Y, a, Cell(X, b, c))) == Nodes(Cell(X, Cell(Y, a, b), c))
  {
  }

  /** A right rotation within a whole shape keeps its nodes. */
  lemma {:induction false} RotRFillNodes(X: Node, Y: Node, a: Shape, b: Shape, c: Shape, tr: Trail)
    requires Distinct(Cell(X, Cell(Y, a, b), c))
    ensures Nodes(Fill(Cell(Y, a, Cell(X, b, c)), tr)) == Nodes(Fill(Cell(X, Cell(Y, a, b), c), tr))
  {
    RotRNodes(X, Y, a, b, c);
    FillNodes(Cell(X, Cell(Y, a, b), c), tr);
    FillNodes(Cell(Y, a, Cell(X, b, c)), tr);
  }

  /** The nodes a right rotation writes are apart from the pieces it
      keeps. */
  lemma {:induction false} RotRApart(X: Node, Y: Node, a: Shape, b: Shape, c: Shape, others: set<Node>)
    requires Distinct(Cell(X, Cell(Y, a, b), c)) && Nodes(Cell(X, Cell(Y, a, b), c)) !! others
    ensures X != Y
    ensures X !in Nodes(a) && X !in Nodes(b) && X !in Nodes(c) && X !in others
    ensures Y !in Nodes(a) && Y !in Nodes(b) && Y !in Nodes(c) && Y !in others
    ensures b.Cell? ==> b.node !in Nodes(a) && b.node !in Under(b) && b.node !in Nodes(c) && b.node !in others
  {
    var ya := Cell(Y, a, b);
    assert X in Nodes(Cell(X, ya, c)) && Y in Nodes(Cell(X, ya, c));
    assert Distinct(ya) && Nodes(ya) !! Nodes(c) && X !in Nodes(ya);
    if b.Cell? {
      assert b.node in Nodes(Cell(X, ya, c)) && b.node in Nodes(ya);
      assert Distinct(b);
    }
  }

  /** A right rotation within a whole shape with no repeated node, and the
      nodes it writes apart from the pieces it keeps. */
  lemma {:induction false} ApartRotR(X: Node, Y: Node, a: Shape, b: Shape, c: Shape, tr: Trail)
    requires Distinct(Fill(Cell(X, Cell(Y, a, b), c), tr))
    ensures Distinct(Fill(Cell(Y, a, Cell(X, b, c)), tr))
    ensures X != Y
    ensures X !in Nodes(a) && X !in Nodes(b) && X !in Nodes(c) && X !in TrailNodes(tr)
    ensures Y !in Nodes(a) && Y !in Nodes(b) && Y !in Nodes(c) && Y !in TrailNodes(tr)
    ensures b.Cell? ==> b.node !in Nodes(a) && b.node !in Under(b) && b.node !in Nodes(c) && b.node !in TrailNodes(tr)
    ensures tr.Below? ==>
      var up := tr.lk.node;
      && up !in Nodes(a) && up !in Nodes(b) && up !in Nodes(c)
      && up !in Nodes(tr.lk.other) && up !in TrailNodes(tr.rest)
  {
    var s, s' := Cell(X, Cell(Y, a, b), c), Cell(Y, a, Cell(X, b, c));
    FillDistinct(s, tr);
    RotRNodes(X, Y, a, b, c);
    FillDistinct(s', tr);
    RotRApart(X, Y, a, b, c, TrailNodes(tr));
    if tr.Below? {
      UpApart(tr);
      assert tr.lk.node in TrailNodes(tr);
    }
  }

  /** The pieces of a linked whole tree around a node `X` with left child
      `Y`. */
  lemma {:induction false} OpenRotR(X: Node, Y: Node, a: Shape, b: Shape, c: Shape, tr: Trail)
    requires Linked(Fill(Cell(X, Cell(Y, a, b), c), tr), null)
    ensures X.left == Y && X.right == Top(c) && X.parent == Up(tr)
    ensures Y.left == Top(a) && Y.right == Top(b) && Y.parent == X
    ensures Kept(a, Y, b, c, X) && KeptAbove(tr)
    ensures tr.Below? ==> Child(tr.lk.node, tr.lk.dir) == X && Child(tr.lk.node, Flip(tr.lk.dir)) == Top(tr.lk.other)
  {
    OpenFill(Cell(X, Cell(Y, a, b), c), tr);
    LinkedHang(Link(Left, X, c), Cell(Y, a, b), Up(tr));
    LinkedHang(Link(Right, Y, a), b, X);
    LinkedInner(b, Y);
  }

  /** The pieces put back together after a right rotation. */
  lemma {:induction false} CloseRotR(X: Node, Y: Node, a: Shape, b: Shape, c: Shape, tr: Trail)
    requires Distinct(Fill(Cell(Y, a, Cell(X, b, c)), tr))
    requires Y.left == Top(a) && Y.right == X && Y.parent == Up(tr)
    requires X.left == Top(b) && X.right == Top(c) && X.parent == Y
    requires Kept(a, Y, b, c, X) && KeptAbove(tr) && (b.Cell? ==> b.node.parent == X)
    requires tr.Below? ==> Child(tr.lk.node, tr.lk.dir) == Y && Child(tr.lk.node, Flip(tr.lk.dir)) == Top(tr.lk.other)
    ensures Linked(Fill(Cell(Y, a, Cell(X, b, c)), tr), null)
  {
    var s' := Cell(Y, a, Cell(X, b, c));
    FillDistinct(s', tr);
    LinkedInner(b, X);
    CloseFill(s', tr);
  }

  /** The pointer writes of a right rotation: the link from above to `Y`,
      the inner child of `Y` under `X`, `X` under `Y`, then the two
      back-links. */
  method RotateRightLinks(X: Node, Y: Node, up: Node?, d: Dir)
    requires X != Y && up != X && up != Y
    requires Y.right != null ==> Y.right != X && Y.right != Y && Y.right != up
    modifies X`left, X`parent, Y`right, Y`parent, {Y.right}`parent
    modifies {up}`left, {up}`right
    ensures X.left == old(Y.right) && X.parent == Y && Y.right == X && Y.parent == up
    ensures old(Y.right) != null ==> old(Y.right).parent == X
    ensures up != null ==> Child(up, d) == Y && Child(up, Flip(d)) == old(Child(up, Flip(d)))
  {
    if up != null {
      if d == Left {
        up.left := Y;
      } else {
        up.right := Y;
      }
    }
    X.left := Y.right;
    if Y.right != null {
      Y.right.parent := X;
    }
    Y.right := X;
    Y.parent := up;
    X.parent := Y;
  }

  /** The pointer writes of a right rotation keep the keys and colours of the
      pieces it moves. */
  method RotateRightValues(X: Node, Y: Node, up: Node?, d: Dir, ghost a: Shape, ghost b: Shape, ghost c: Shape, ghost tr: Trail)
    requires X != Y && up != X && up != Y
    requires Y.right != null ==> Y.right != X && Y.right != Y && Y.right != up
    modifies X`left, X`parent, Y`right, Y`parent, {Y.right}`parent
    modifies {up}`left, {up}`right
    ensures X.left == old(Y.right) && X.parent == Y && Y.right == X && Y.parent == up
    ensures old(Y.right) != null ==> old(Y.right).parent == X
    ensures up != null ==> Child(up, d) == Y && Child(up, Flip(d)) == old(Child(up, Flip(d)))
    ensures Pieces(a, b, c, tr) == old(Pieces(a, b, c, tr))
  {
    NodesAllocated(a);
    NodesAllocated(b);
    NodesAllocated(c);
    TrailAllocated(tr);
    RotateRightLinks(X, Y, up, d);
  }

  /** Rotates right at `X`, whose ancestors are `tr`, turning the link on
      side `d` of the node above to the left child of `X`. */
  method RotateRightAt(X: Node, Y: Node, d: Dir, ghost a: Shape, ghost b: Shape, ghost c: Shape, ghost tr: Trail)
    requires Linked(Fill(Cell(X, Cell(Y, a, b), c), tr), null)
    requires tr.Below? ==> d == tr.lk.dir
    modifies X`left, X`parent, Y`right, Y`parent, {Top(b)}`parent
    modifies {Up(tr)}`left, {Up(tr)}`right
    ensures Linked(Fill(Cell(Y, a, Cell(X, b, c)), tr), null)
    ensures old(Abs(Cell(X, Cell(Y, a, b), c))).Node? && old(Abs(Cell(X, Cell(Y, a, b), c))).left.Node?
    ensures Abs(Cell(Y, a, Cell(X, b, c))) == RotateRight(old(Abs(Cell(X, Cell(Y, a, b), c))))
    ensures AbsTrail(tr) == old(AbsTrail(tr))
    ensures Abs(a) == old(Abs(a)) && Abs(b) == old(Abs(b)) && Abs(c) == old(Abs(c))
  {
    OpenRotR(X, Y, a, b, c, tr);
    ApartRotR(X, Y, a, b, c, tr);
    TrailAllocated(tr);
    NodesAllocated(a);
    NodesAllocated(b);
    NodesAllocated(c);
    var up := X.parent;
    RotateRightKeep(X, Y, up, d, a, b, c, tr);
    assert KeptAbove(tr);
    CloseRotR(X, Y, a, b, c, tr);
  }

  /** The pointer writes of a right rotation keep its moving subtrees as
      they are. */
  method RotateRightKeep(X: Node, Y: Node, up: Node?, d: Dir, ghost a: Shape, ghost b: Shape, ghost c: Shape, ghost tr: Trail)
    requires Kept(a, Y, b, c, X)
    requires X.left == Y && X.right == Top(c) && Y.left == Top(a) && Y.right == Top(b) && Y.parent == X
    requires X != Y && up != X && up != Y
    requires X !in Nodes(a) && X !in Nodes(b) && X !in Nodes(c)
    requires Y !in Nodes(a) && Y !in Nodes(b) && Y !in Nodes(c)
    requires b.Cell? ==> b.node !in Nodes(a) && b.node !in Under(b) && b.node !in Nodes(c) && b.node != up
    requires up != null ==> up !in Nodes(a) && up !in Nodes(b) && up !in Nodes(c)
    modifies X`left, X`parent, Y`right, Y`parent, {Top(b)}`parent
    modifies {up}`left, {up}`right
    ensures Kept(a, Y, b, c, X)
    ensures Y.right == X && Y.parent == up && X.left == Top(b) && X.parent == Y && (b.Cell? ==> b.node.parent == X)
    ensures up != null ==> Child(up, d) == Y && Child(up, Flip(d)) == old(Child(up, Flip(d)))
    ensures Pieces(a, b, c, tr) == old(Pieces(a, b, c, tr))
  {
    NodesAllocated(a);
    NodesAllocated(b);
    NodesAllocated(c);
    RotateRightValues(X, Y, up, d, a, b, c, tr);
  }
}
