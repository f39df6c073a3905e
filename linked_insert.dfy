/** Insertion on linked nodes: `insert_norm_bst` (RBTree.rs:103-145),
    `red_black_tree_insertion_cover` (RBTree.rs:147-336) and `insert`
    (RBTree.rs:338-365), each proved to do to the tree what the
    functions of module `Insertion` do to its value. */
module LinkedInsert {
  import opened Trees
  import opened Insertion
  import opened LinkedTree
  import opened LinkedRotation

  // ---------------------------------------------------------------------
  // insert_norm_bst

  /** The ancestors, inside `s`, of the empty slot where `insert_norm_bst`
      hangs `x`: it goes left on a smaller key and right on a larger one;
      `None` when it meets `x`. */
  ghost function Descent(s: Shape, x: int): Option<Trail>
    reads Nodes(s)`key
  {
    match s
    case Empty => Some(AtRoot)
    case Cell(n, l, r) =>
      if x < n.key then
        (match Descent(l, x) case None => None case Some(tr) => Some(Append(tr, Link(Left, n, r))))
      else if x > n.key then
        (match Descent(r, x) case None => None case Some(tr) => Some(Append(tr, Link(Right, n, l))))
      else None
  }

  /** The descent is the one of `InsertBst` on the value: it meets the key
      exactly when `InsertBst` records no site, it leads to the recorded
      site, it leaves an empty slot in `s`, and a Red node with key `x`
      hung there gives the tree `InsertBst` builds. */
  lemma {:induction false} DescentAbs(s: Shape, x: int, n: Node)
    requires n.key == x && n.color == Red
    ensures var d := Descent(s, x);
      && (d.None? <==> InsertBst(Abs(s), x).1.None?)
      && (d.Some? ==>
            && AbsTrail(d.value) == InsertBst(Abs(s), x).1.value
            && Fill(Empty, d.value) == s
            && Abs(Fill(Cell(n, Empty, Empty), d.value)) == InsertBst(Abs(s), x).0)
    decreases s
  {
    match s
    case Empty =>
    case Cell(m, l, r) =>
      if x < m.key {
        DescentAbs(l, x, n);
        var d := Descent(l, x);
        if d.Some? {
          var lk := Link(Left, m, r);
          FillAppend(Cell(n, Empty, Empty), d.value, lk);
          FillAppend(Empty, d.value, lk);
          AbsTrailAppend(d.value, lk);
        }
      } else if x > m.key {
        DescentAbs(r, x, n);
        var d := Descent(r, x);
        if d.Some? {
          var lk := Link(Right, m, l);
          FillAppend(Cell(n, Empty, Empty), d.value, lk);
          FillAppend(Empty, d.value, lk);
          AbsTrailAppend(d.value, lk);
        }
      }
  }

  /** The descent meets the key exactly when `InsertBst` records no site. */
  lemma {:induction false} DescentNone(s: Shape, x: int)
    ensures Descent(s, x).None? <==> InsertBst(Abs(s), x).1.None?
    decreases s
  {
    match s
    case Empty =>
    case Cell(m, l, r) =>
      DescentNone(l, x);
      DescentNone(r, x);
  }

  /** `insert_norm_bst` on the subtree `root` (laid out as `s`) below
      `parent`: on an empty subtree it makes a Red node with a back-link to
      `parent`, records it in `info` and returns it; otherwise it goes down
      by `<` / `>` and rewrites the child link it went down by; on an equal
      key it changes nothing. The new shape is `s` with the fresh node hung
      at the end of `Descent(s, item)` (given as `d`). */
  method InsertNormBst(root: Node?, parent: Node?, item: int, info: SavedNodeInfo, ghost s: Shape, ghost d: Option<Trail>)
    returns (r: Node?, ghost s': Shape)
    requires Linked(s, parent) && root == Top(s) && d == Descent(s, item)
    modifies Nodes(s)`left, Nodes(s)`right, info`savedNode
    ensures Linked(s', parent) && r == Top(s')
    ensures d.None? ==> s' == s && info.savedNode == old(info.savedNode)
    ensures d.Some? ==>
      && info.savedNode != null && fresh(info.savedNode)
      && info.savedNode.key == item && info.savedNode.color == Red
      && s' == Fill(Cell(info.savedNode, Empty, Empty), d.value)
      && Nodes(s') == Nodes(s) + {info.savedNode}
    decreases s, 1
  {
    if root == null {
      var n := new Node(item, Red);
      if parent != null {
        n.parent := parent;
      }
      info.savedNode := n;
      r, s' := n, Cell(n, Empty, Empty);
    } else if item < root.key {
      r, s' := InsertLeftOf(root, parent, item, info, s, d);
    } else if item > root.key {
      r, s' := InsertRightOf(root, parent, item, info, s, d);
    } else {
      r, s' := root, s;
    }
  }

  /** The `item < value` arm of `insert_norm_bst` (RBTree.rs:125-132). */
  method InsertLeftOf(root: Node, parent: Node?, item: int, info: SavedNodeInfo, ghost s: Shape, ghost d: Option<Trail>)
    returns (r: Node?, ghost s': Shape)
    requires Linked(s, parent) && s.Cell? && root == s.node && item < root.key && d == Descent(s, item)
    modifies Nodes(s)`left, Nodes(s)`right, info`savedNode
    ensures Linked(s', parent) && r == Top(s')
    ensures d.None? ==> s' == s && info.savedNode == old(info.savedNode)
    ensures d.Some? ==>
      && info.savedNode != null && fresh(info.savedNode)
      && info.savedNode.key == item && info.savedNode.color == Red
      && s' == Fill(Cell(info.savedNode, Empty, Empty), d.value)
      && Nodes(s') == Nodes(s) + {info.savedNode}
    decreases s, 0
  {
    NodesAllocated(s);
    assert Linked(s.right, root) && root.right == Top(s.right) && root.parent == parent;
    assert Nodes(s.left) !! Nodes(s.right) && root !in Nodes(s.left) && root !in Nodes(s.right);
    ghost var dl := Descent(s.left, item);
    var l, sl := InsertNormBst(root.left, root, item, info, s.left, dl);
    root.left := l;
    LinkedJoin(root, sl, s.right, parent);
    if dl.Some? {
      FillAppend(Cell(info.savedNode, Empty, Empty), dl.value, Link(Left, root, s.right));
    }
    r, s' := root, Cell(root, sl, s.right);
  }

  /** The `item > value` arm of `insert_norm_bst` (RBTree.rs:133-140). */
  method InsertRightOf(root: Node, parent: Node?, item: int, info: SavedNodeInfo, ghost s: Shape, ghost d: Option<Trail>)
    returns (r: Node?, ghost s': Shape)
    requires Linked(s, parent) && s.Cell? && root == s.node && item > root.key && d == Descent(s, item)
    modifies Nodes(s)`left, Nodes(s)`right, info`savedNode
    ensures Linked(s', parent) && r == Top(s')
    ensures d.None? ==> s' == s && info.savedNode == old(info.savedNode)
    ensures d.Some? ==>
      && info.savedNode != null && fresh(info.savedNode)
      && info.savedNode.key == item && info.savedNode.color == Red
      && s' == Fill(Cell(info.savedNode, Empty, Empty), d.value)
      && Nodes(s') == Nodes(s) + {info.savedNode}
    decreases s, 0
  {
    NodesAllocated(s);
    assert Linked(s.left, root) && root.left == Top(s.left) && root.parent == parent;
    assert Nodes(s.left) !! Nodes(s.right) && root !in Nodes(s.left) && root !in Nodes(s.right);
    ghost var dr := Descent(s.right, item);
    var rr, sr := InsertNormBst(root.right, root, item, info, s.right, dr);
    root.right := rr;
    LinkedJoin(root, s.left, sr, parent);
    if dr.Some? {
      FillAppend(Cell(info.savedNode, Empty, Empty), dr.value, Link(Right, root, s.left));
    }
    r, s' := root, Cell(root, s.left, sr);
  }

  // ---------------------------------------------------------------------
  // red_black_tree_insertion_cover

  /** `red_black_tree_insertion_cover` at node `n`, the top of `f`, whose
      ancestors are `tr` in the linked tree `root` (RBTree.rs:147-336). It
      ends the process exactly when `InsertFix` does; otherwise the linked
      tree it leaves, whose root it returns, stands for the tree `InsertFix`
      returns. */
  method InsertionCover(root: Node, n: Node, ghost f: Shape, ghost tr: Trail, ghost v: Tree, ghost p: Path)
    returns (newRoot: Node?, fatal: bool, ghost t: Shape)
    requires f.Cell? && f.node == n && Linked(Fill(f, tr), null) && root == Top(Fill(f, tr))
    requires v == Abs(f) && p == AbsTrail(tr)
    modifies Nodes(Fill(f, tr))`left, Nodes(Fill(f, tr))`right, Nodes(Fill(f, tr))`parent, Nodes(Fill(f, tr))`color
    ensures fatal <==> InsertFix(v, p).Fatal?
    ensures !fatal ==> Linked(t, null) && newRoot == Top(t) && Abs(t) == InsertFix(v, p).value
    decreases tr, 2
  {
    OpenFill(f, tr);
    FillDistinct(f, tr);
    FillTop(f, tr);
    FillNodes(f, tr);
    if n == root {
      ghost var vl, vr := Abs(f.left), Abs(f.right);
      n.color := Black;
      assert Abs(f.left) == vl && Abs(f.right) == vr;
      return root, false, f;
    }
    var parent := n.parent;
    if parent == null {
      assert false;
    }
    AbsTrailBelow(tr.lk, tr.rest);
    if parent.color == Black {
      AbsFill(f, tr);
      return root, false, Fill(f, tr);
    }
    var grandparent := parent.parent;
    if grandparent == null {
      return root, true, f;
    }
    AbsTrailBelow(tr.rest.lk, tr.rest.rest);
    newRoot, fatal, t := RedParent(root, n, parent, grandparent, f, tr.lk, tr.rest.lk, tr.rest.rest, v, p);
  }

  /** The cover below a Red parent `P` and a grandparent `G`
      (RBTree.rs:166-328): it finds the uncle as the source does (an absent
      one counts as Black) and takes the Red-uncle or a Black-uncle
      branch. */
  method RedParent(root: Node, n: Node, P: Node, G: Node, ghost f: Shape, ghost l0: Link, ghost l1: Link, ghost rest: Trail, ghost v: Tree, ghost p: Path)
    returns (newRoot: Node?, fatal: bool, ghost t: Shape)
    requires f.Cell? && f.node == n && l0.node == P && l1.node == G && P.color == Red
    requires Linked(Fill(f, Below(l0, Below(l1, rest))), null) && root == Top(Fill(f, Below(l0, Below(l1, rest))))
    requires v == Abs(f) && p == AbsTrail(Below(l0, Below(l1, rest)))
    modifies Nodes(Fill(f, Below(l0, Below(l1, rest))))`left, Nodes(Fill(f, Below(l0, Below(l1, rest))))`right
    modifies Nodes(Fill(f, Below(l0, Below(l1, rest))))`parent, Nodes(Fill(f, Below(l0, Below(l1, rest))))`color
    ensures fatal <==> InsertFix(v, p).Fatal?
    ensures !fatal ==> Linked(t, null) && newRoot == Top(t) && Abs(t) == InsertFix(v, p).value
    decreases Below(l0, Below(l1, rest)), 1
  {
    ghost var tr := Below(l0, Below(l1, rest));
    ghost var pf := Hang(l0, f);
    assert Fill(f, tr) == Fill(pf, Below(l1, rest));
    UpSide(pf, Below(l1, rest));
    OpenFill(pf, Below(l1, rest));
    AbsTrailBelow(l0, Below(l1, rest));
    AbsTrailBelow(l1, rest);
    var gl, gr := G.left, G.right;
    var uncle: Node? := null;
    if gl != null {
      if P == gl {
        uncle := gr;
      } else {
        uncle := gl;
      }
    }
    assert uncle == Top(l1.other);
    if uncle != null && uncle.color == Red {
      newRoot, fatal, t := RedUncle(root, n, P, G, uncle, f, l0, l1, rest, v, p);
    } else {
      var isParentLeft := gl != null && gl == P;
      if isParentLeft {
        newRoot, fatal, t := BlackUncleLeft(root, n, P, G, f, l0, l1, rest, v, p);
      } else {
        newRoot, fatal, t := BlackUncleRight(root, n, P, G, f, l0, l1, rest, v, p);
      }
    }
  }

  /** The Red-uncle branch (RBTree.rs:203-215): grandparent Red, uncle and
      parent Black, then the cover again at the grandparent. */
  method RedUncle(root: Node, n: Node, P: Node, G: Node, U: Node, ghost f: Shape, ghost l0: Link, ghost l1: Link, ghost rest: Trail, ghost v: Tree, ghost p: Path)
    returns (newRoot: Node?, fatal: bool, ghost t: Shape)
    requires f.Cell? && f.node == n && l0.node == P && l1.node == G && l1.other.Cell? && l1.other.node == U
    requires P.color == Red && U.color == Red
    requires Linked(Fill(f, Below(l0, Below(l1, rest))), null) && root == Top(Fill(f, Below(l0, Below(l1, rest))))
    requires v == Abs(f) && p == AbsTrail(Below(l0, Below(l1, rest)))
    modifies Nodes(Fill(f, Below(l0, Below(l1, rest))))`left, Nodes(Fill(f, Below(l0, Below(l1, rest))))`right
    modifies Nodes(Fill(f, Below(l0, Below(l1, rest))))`parent, Nodes(Fill(f, Below(l0, Below(l1, rest))))`color
    ensures fatal <==> InsertFix(v, p).Fatal?
    ensures !fatal ==> Linked(t, null) && newRoot == Top(t) && Abs(t) == InsertFix(v, p).value
    decreases Below(l0, Below(l1, rest)), 0
  {
    ghost var g := Hang(l1, Hang(l0, f));
    assert Fill(f, Below(l0, Below(l1, rest))) == Fill(g, rest);
    AbsTrailBelow(l0, Below(l1, rest));
    AbsTrailBelow(l1, rest);
    ghost var p2 := AbsTrail(rest);
    assert p[2..] == p2;
    ghost var v' := RedUncleRecolor(v, p[0], p[1]);
    RecolorApart(f, l0, l1, rest);
    FillNodes(g, rest);
    assert G in Nodes(g) && U in Nodes(g) && P in Nodes(g);
    NodesAllocated(Fill(g, rest));
    RedUncleColors(G, U, P, f, l0.other, l1.other.left, l1.other.right, rest);
    assert Abs(g) == v';
    newRoot, fatal, t := InsertionCover(root, G, g, rest, v', p2);
  }

  /** The colour writes of the Red-uncle branch (RBTree.rs:212-214). */
  method PaintRedUncle(G: Node, U: Node, P: Node)
    requires G != U && G != P && P != U
    modifies G`color, U`color, P`color
    ensures G.color == Red && U.color == Black && P.color == Black
  {
    G.color := Red;
    U.color := Black;
    P.color := Black;
  }

  /** The colour writes of the Red-uncle branch leave the values of the
      pieces around them, `f` below the parent, `po` beside it, `ul` and
      `ur` below the uncle and the ancestors `rest` above the grandparent,
      as they are. */
  method RedUncleColors(G: Node, U: Node, P: Node, ghost f: Shape, ghost po: Shape, ghost ul: Shape, ghost ur: Shape, ghost rest: Trail)
    requires G != U && G != P && P != U
    requires P !in Nodes(f) && G !in Nodes(f) && U !in Nodes(f)
    requires P !in Nodes(po) && G !in Nodes(po) && U !in Nodes(po)
    requires P !in Nodes(ul) && G !in Nodes(ul) && U !in Nodes(ul)
    requires P !in Nodes(ur) && G !in Nodes(ur) && U !in Nodes(ur)
    requires P !in TrailNodes(rest) && G !in TrailNodes(rest) && U !in TrailNodes(rest)
    modifies G`color, U`color, P`color
    ensures G.color == Red && U.color == Black && P.color == Black
    ensures Pieces(f, po, ul, rest) == old(Pieces(f, po, ul, rest)) && Abs(ur) == old(Abs(ur))
  {
    NodesAllocated(f);
    NodesAllocated(po);
    NodesAllocated(ul);
    NodesAllocated(ur);
    TrailAllocated(rest);
    PaintRedUncle(G, U, P);
  }

  /** The colour writes before the outer rotation (RBTree.rs:253-254 and
      306-307): parent Black, grandparent Red. */
  method PaintOuter(X: Node, G: Node)
    requires X != G
    modifies X`color, G`color
    ensures X.color == Black && G.color == Red
  {
    X.color := Black;
    G.color := Red;
  }

  /** The colour writes before the outer rotation leave the values of the
      pieces around them, `a` and `b` below the parent, `u` beside it and
      the ancestors `rest`, as they are. */
  method OuterColors(X: Node, G: Node, ghost a: Shape, ghost b: Shape, ghost u: Shape, ghost rest: Trail)
    requires X != G
    requires X !in Nodes(a) && X !in Nodes(b) && X !in Nodes(u) && X !in TrailNodes(rest)
    requires G !in Nodes(a) && G !in Nodes(b) && G !in Nodes(u) && G !in TrailNodes(rest)
    modifies X`color, G`color
    ensures X.color == Black && G.color == Red
    ensures Pieces(a, b, u, rest) == old(Pieces(a, b, u, rest))
  {
    NodesAllocated(a);
    NodesAllocated(b);
    NodesAllocated(u);
    TrailAllocated(rest);
    PaintOuter(X, G);
  }

  /** The nodes the Red-uncle branch recolours are apart from the pieces
      whose colours it keeps. */
  lemma {:induction false} RecolorApart(f: Shape, l0: Link, l1: Link, rest: Trail)
    requires Distinct(Fill(f, Below(l0, Below(l1, rest)))) && l1.other.Cell?
    ensures var P, G, U := l0.node, l1.node, l1.other.node;
      && P != G && P != U && G != U
      && P !in Nodes(f) && G !in Nodes(f) && U !in Nodes(f)
      && P !in Nodes(l0.other) && G !in Nodes(l0.other) && U !in Nodes(l0.other)
      && P !in Nodes(l1.other.left) && G !in Nodes(l1.other.left) && U !in Nodes(l1.other.left)
      && P !in Nodes(l1.other.right) && G !in Nodes(l1.other.right) && U !in Nodes(l1.other.right)
      && P !in TrailNodes(rest) && G !in TrailNodes(rest) && U !in TrailNodes(rest)
  {
    var pf := Hang(l0, f);
    var g := Hang(l1, pf);
    assert Fill(f, Below(l0, Below(l1, rest))) == Fill(g, rest);
    FillDistinct(g, rest);
    HangParts(l1, pf);
    HangParts(l0, f);
    assert Distinct(l1.other);
  }

  /** The Black-uncle branch with the parent on the left
      (RBTree.rs:221-273): a right child is first rotated into the parent's
      place, then the outer rotation. */
  method BlackUncleLeft(root: Node, n: Node, P: Node, G: Node, ghost f: Shape, ghost l0: Link, ghost l1: Link, ghost rest: Trail, ghost v: Tree, ghost p: Path)
    returns (newRoot: Node?, fatal: bool, ghost t: Shape)
    requires f.Cell? && f.node == n && l0.node == P && l1.node == G && l1.dir == Left
    requires P.color == Red && !IsRed(Abs(l1.other))
    requires Linked(Fill(f, Below(l0, Below(l1, rest))), null) && root == Top(Fill(f, Below(l0, Below(l1, rest))))
    requires v == Abs(f) && p == AbsTrail(Below(l0, Below(l1, rest)))
    modifies Nodes(Fill(f, Below(l0, Below(l1, rest))))`left, Nodes(Fill(f, Below(l0, Below(l1, rest))))`right
    modifies Nodes(Fill(f, Below(l0, Below(l1, rest))))`parent, Nodes(Fill(f, Below(l0, Below(l1, rest))))`color
    ensures fatal <==> InsertFix(v, p).Fatal?
    ensures !fatal ==> Linked(t, null) && newRoot == Top(t) && Abs(t) == InsertFix(v, p).value
  {
    AbsTrailBelow(l0, Below(l1, rest));
    AbsTrailBelow(l1, rest);
    InsertFixBlackUncle(v, p);
    ghost var uv, pr := Abs(l1.other), p[2..];
    var parent, s := StraightenLeft(root, n, P, G, f, l0, l1, rest, v, p[0], uv, pr);
    newRoot, fatal, t := OuterLeft(root, parent, G, s, l1.other, rest, Straighten(v, p[0], Left), G.key, uv, pr);
  }

  /** The first step of BlackUncleLeft (RBTree.rs:222-244): when `n` is the
      right child of the parent `P`, `n` is rotated into `P`'s place; the
      subtree below the grandparent `G` then stands for `Straighten`. */
  method StraightenLeft(root: Node, n: Node, P: Node, G: Node, ghost f: Shape, ghost l0: Link, ghost l1: Link, ghost rest: Trail, ghost v: Tree, ghost fr: Frame, ghost uv: Tree, ghost pr: Path)
    returns (parent: Node, ghost s: Shape)
    requires f.Cell? && f.node == n && l0.node == P && l1.node == G && l1.dir == Left
    requires Linked(Fill(f, Below(l0, Below(l1, rest))), null) && root == Top(Fill(f, Below(l0, Below(l1, rest))))
    requires v == Abs(f) && fr == FrameOf(l0) && uv == Abs(l1.other) && pr == AbsTrail(rest)
    modifies Nodes(Fill(f, Below(l0, Below(l1, rest))))`left, Nodes(Fill(f, Below(l0, Below(l1, rest))))`right
    modifies Nodes(Fill(f, Below(l0, Below(l1, rest))))`parent
    ensures s.Cell? && s.node == parent
    ensures Linked(Fill(Cell(G, s, l1.other), rest), null) && root == Top(Fill(Cell(G, s, l1.other), rest))
    ensures Nodes(Fill(Cell(G, s, l1.other), rest)) == Nodes(Fill(f, Below(l0, Below(l1, rest))))
    ensures Abs(s) == Straighten(v, fr, Left) && Abs(l1.other) == uv && AbsTrail(rest) == pr
  {
    ghost var tr1 := Below(l1, rest);
    ghost var pf := Hang(l0, f);
    assert Fill(f, Below(l0, tr1)) == Fill(pf, tr1);
    OpenFill(pf, tr1);
    LinkedHang(l0, f, G);
    FillNodes(pf, tr1);
    assert n in Nodes(f) && (l0.dir == Right <==> n == P.right);
    NodesAllocated(Fill(pf, tr1));
    TrailAllocated(rest);
    AbsTrailBelow(l1, rest);
    parent := P;
    s := pf;
    if P.right != null && n == P.right {
      RotLFillNodes(P, n, l0.other, f.left, f.right, tr1);
      RotateLeftAt(P, n, Left, l0.other, f.left, f.right, tr1);
      AbsTrailBelow(l1, rest);
      s := Cell(n, Cell(P, l0.other, f.left), f.right);
      parent := n;
    }
    assert Fill(s, tr1) == Fill(Cell(G, s, l1.other), rest);
    FillTopSame(pf, s, tr1);
  }

  /** `InsertFix` in the Black-uncle case, unfolded. */
  lemma InsertFixBlackUncle(v: Tree, p: Path)
    requires v.Node? && |p| >= 2 && p[0].color == Red && !IsRed(p[1].other)
    ensures var s := Straighten(v, p[0], p[1].dir);
      var top := if p[1].dir == Left then RotateRight(Node(Red, Blacken(s), p[1].key, p[1].other))
        else RotateLeft(Node(Red, p[1].other, p[1].key, Blacken(s)));
      InsertFix(v, p) == if |p| > 2 && p[2].dir == Right && p[2].other == Nil then Fatal else Done(Plug(top, p[2..]))
  {
  }

  /** The mirror of BlackUncleLeft (RBTree.rs:274-327). */
  method BlackUncleRight(root: Node, n: Node, P: Node, G: Node, ghost f: Shape, ghost l0: Link, ghost l1: Link, ghost rest: Trail, ghost v: Tree, ghost p: Path)
    returns (newRoot: Node?, fatal: bool, ghost t: Shape)
    requires f.Cell? && f.node == n && l0.node == P && l1.node == G && l1.dir == Right
    requires P.color == Red && !IsRed(Abs(l1.other))
    requires Linked(Fill(f, Below(l0, Below(l1, rest))), null) && root == Top(Fill(f, Below(l0, Below(l1, rest))))
    requires v == Abs(f) && p == AbsTrail(Below(l0, Below(l1, rest)))
    modifies Nodes(Fill(f, Below(l0, Below(l1, rest))))`left, Nodes(Fill(f, Below(l0, Below(l1, rest))))`right
    modifies Nodes(Fill(f, Below(l0, Below(l1, rest))))`parent, Nodes(Fill(f, Below(l0, Below(l1, rest))))`color
    ensures fatal <==> InsertFix(v, p).Fatal?
    ensures !fatal ==> Linked(t, null) && newRoot == Top(t) && Abs(t) == InsertFix(v, p).value
  {
    AbsTrailBelow(l0, Below(l1, rest));
    AbsTrailBelow(l1, rest);
    InsertFixBlackUncle(v, p);
    ghost var uv, pr := Abs(l1.other), p[2..];
    var parent, s := StraightenRight(root, n, P, G, f, l0, l1, rest, v, p[0], uv, pr);
    newRoot, fatal, t := OuterRight(root, parent, G, s, l1.other, rest, Straighten(v, p[0], Right), G.key, uv, pr);
  }

  /** The mirror of StraightenLeft (RBTree.rs:275-297). */
  method StraightenRight(root: Node, n: Node, P: Node, G: Node, ghost f: Shape, ghost l0: Link, ghost l1: Link, ghost rest: Trail, ghost v: Tree, ghost fr: Frame, ghost uv: Tree, ghost pr: Path)
    returns (parent: Node, ghost s: Shape)
    requires f.Cell? && f.node == n && l0.node == P && l1.node == G && l1.dir == Right
    requires Linked(Fill(f, Below(l0, Below(l1, rest))), null) && root == Top(Fill(f, Below(l0, Below(l1, rest))))
    requires v == Abs(f) && fr == FrameOf(l0) && uv == Abs(l1.other) && pr == AbsTrail(rest)
    modifies Nodes(Fill(f, Below(l0, Below(l1, rest))))`left, Nodes(Fill(f, Below(l0, Below(l1, rest))))`right
    modifies Nodes(Fill(f, Below(l0, Below(l1, rest))))`parent
    ensures s.Cell? && s.node == parent
    ensures Linked(Fill(Cell(G, l1.other, s), rest), null) && root == Top(Fill(Cell(G, l1.other, s), rest))
    ensures Nodes(Fill(Cell(G, l1.other, s), rest)) == Nodes(Fill(f, Below(l0, Below(l1, rest))))
    ensures Abs(s) == Straighten(v, fr, Right) && Abs(l1.other) == uv && AbsTrail(rest) == pr
  {
    ghost var tr1 := Below(l1, rest);
    ghost var pf := Hang(l0, f);
    assert Fill(f, Below(l0, tr1)) == Fill(pf, tr1);
    OpenFill(pf, tr1);
    LinkedHang(l0, f, G);
    FillNodes(pf, tr1);
    assert n in Nodes(f) && (l0.dir == Left <==> n == P.left);
    NodesAllocated(Fill(pf, tr1));
    TrailAllocated(rest);
    AbsTrailBelow(l1, rest);
    parent := P;
    s := pf;
    if P.left != null && n == P.left {
      RotRFillNodes(P, n, f.left, f.right, l0.other, tr1);
      RotateRightAt(P, n, Right, f.left, f.right, l0.other, tr1);
      AbsTrailBelow(l1, rest);
      s := Cell(n, f.left, Cell(P, f.right, l0.other));
      parent := n;
    }
    assert Fill(s, tr1) == Fill(Cell(G, l1.other, s), rest);
    FillTopSame(pf, s, tr1);
  }

  /** The nodes the outer rotation recolours are apart from the pieces whose
      colours it keeps. */
  lemma {:induction false} OuterApart(lk: Link, s: Shape, rest: Trail)
    requires Distinct(Fill(Hang(lk, s), rest)) && s.Cell?
    ensures var X, G := s.node, lk.node;
      && X != G
      && X !in Nodes(s.left) && X !in Nodes(s.right) && X !in Nodes(lk.other) && X !in TrailNodes(rest)
      && G !in Nodes(s.left) && G !in Nodes(s.right) && G !in Nodes(lk.other) && G !in TrailNodes(rest)
  {
    FillDistinct(Hang(lk, s), rest);
    HangParts(lk, s);
    assert s.node in Nodes(s);
  }

  /** The end of the Black-uncle branch with the parent `X` on the left of
      the grandparent `G` (RBTree.rs:253-273): `X` Black, `G` Red, the link
      from the great-grandparent (whose left link is unwrapped) or the root
      turned to `X`, and `X` rotated up over `G`. */
  method OuterLeft(root: Node, X: Node, G: Node, ghost s: Shape, ghost U: Shape, ghost rest: Trail, ghost sv: Tree, ghost gk: int, ghost uv: Tree, ghost pr: Path)
    returns (newRoot: Node?, fatal: bool, ghost t: Shape)
    requires s.Cell? && s.node == X
    requires Linked(Fill(Cell(G, s, U), rest), null) && root == Top(Fill(Cell(G, s, U), rest))
    requires Abs(s) == sv && G.key == gk && Abs(U) == uv && AbsTrail(rest) == pr
    modifies Nodes(Fill(Cell(G, s, U), rest))`left, Nodes(Fill(Cell(G, s, U), rest))`right
    modifies Nodes(Fill(Cell(G, s, U), rest))`parent, Nodes(Fill(Cell(G, s, U), rest))`color
    ensures fatal <==> pr != [] && pr[0].dir == Right && pr[0].other == Nil
    ensures !fatal ==> Linked(t, null) && newRoot == Top(t) && Abs(t) == Plug(RotateRight(Node(Red, Blacken(sv), gk, uv)), pr)
  {
    ghost var lk := Link(Left, G, U);
    OuterApart(lk, s, rest);
    FillNodes(Cell(G, s, U), rest);
    NodesAllocated(Fill(Cell(G, s, U), rest));
    OuterColors(X, G, s.left, s.right, U, rest);
    OpenFill(Cell(G, s, U), rest);
    var ggp := G.parent;
    if ggp != null && ggp.left == null {
      UpSide(Cell(G, s, U), rest);
      return root, true, s;
    }
    if ggp != null {
      UpSide(Cell(G, s, U), rest);
    }
    var d := if ggp != null && ggp.left == G then Left else Right;
    RotateRightAt(G, X, d, s.left, s.right, U, rest);
    newRoot, fatal := if ggp == null then X else root, false;
    t := Fill(Cell(X, s.left, Cell(G, s.right, U)), rest);
    AbsFill(Cell(X, s.left, Cell(G, s.right, U)), rest);
    FillTopSame(Cell(G, s, U), Cell(X, s.left, Cell(G, s.right, U)), rest);
  }

  /** The mirror of OuterLeft (RBTree.rs:306-326). */
  method OuterRight(root: Node, X: Node, G: Node, ghost s: Shape, ghost U: Shape, ghost rest: Trail, ghost sv: Tree, ghost gk: int, ghost uv: Tree, ghost pr: Path)
    returns (newRoot: Node?, fatal: bool, ghost t: Shape)
    requires s.Cell? && s.node == X
    requires Linked(Fill(Cell(G, U, s), rest), null) && root == Top(Fill(Cell(G, U, s), rest))
    requires Abs(s) == sv && G.key == gk && Abs(U) == uv && AbsTrail(rest) == pr
    modifies Nodes(Fill(Cell(G, U, s), rest))`left, Nodes(Fill(Cell(G, U, s), rest))`right
    modifies Nodes(Fill(Cell(G, U, s), rest))`parent, Nodes(Fill(Cell(G, U, s), rest))`color
    ensures fatal <==> pr != [] && pr[0].dir == Right && pr[0].other == Nil
    ensures !fatal ==> Linked(t, null) && newRoot == Top(t) && Abs(t) == Plug(RotateLeft(Node(Red, uv, gk, Blacken(sv))), pr)
  {
    ghost var lk := Link(Right, G, U);
    OuterApart(lk, s, rest);
    FillNodes(Cell(G, U, s), rest);
    NodesAllocated(Fill(Cell(G, U, s), rest));
    OuterColors(X, G, s.left, s.right, U, rest);
    OpenFill(Cell(G, U, s), rest);
    var ggp := G.parent;
    if ggp != null && ggp.left == null {
      UpSide(Cell(G, U, s), rest);
      return root, true, s;
    }
    if ggp != null {
      UpSide(Cell(G, U, s), rest);
    }
    var d := if ggp != null && ggp.left == G then Left else Right;
    RotateLeftAt(G, X, d, U, s.left, s.right, rest);
    newRoot, fatal := if ggp == null then X else root, false;
    t := Fill(Cell(X, Cell(G, U, s.left), s.right), rest);
    AbsFill(Cell(X, Cell(G, U, s.left), s.right), rest);
    FillTopSame(Cell(G, U, s), Cell(X, Cell(G, U, s.left), s.right), rest);
  }

  // ---------------------------------------------------------------------
  // insert

  /** `insert` (RBTree.rs:338-365) on the linked tree `root`, laid out as
      `s`: the plain insertion, then the cover from the new node; a key
      already present ends the process. It ends the process exactly when
      `Insertion.Insert` does on the value of `s`, and otherwise leaves the
      linked tree that `Insertion.Insert` returns. */
  method Insert(root: Node?, x: int, ghost s: Shape, ghost v: Tree)
    returns (newRoot: Node?, fatal: bool, ghost t: Shape)
    requires Linked(s, null) && root == Top(s) && v == Abs(s)
    modifies Nodes(s)`left, Nodes(s)`right, Nodes(s)`parent, Nodes(s)`color
    ensures fatal <==> Insertion.Insert(v, x).Fatal?
    ensures !fatal ==> Linked(t, null) && newRoot == Top(t) && Abs(t) == Insertion.Insert(v, x).value
  {
    NodesAllocated(s);
    var info := new SavedNodeInfo();
    ghost var d := Descent(s, x);
    var r, s' := InsertNormBst(root, null, x, info, s, d);
    var saved := info.savedNode;
    if saved != null {
      DescentAbs(s, x, saved);
      ghost var f := Cell(saved, Empty, Empty);
      newRoot, fatal, t := InsertionCover(r, saved, f, d.value, Abs(f), AbsTrail(d.value));
    } else {
      DescentNone(s, x);
      newRoot, fatal, t := root, true, s;
    }
  }
}
