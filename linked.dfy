/** The linked representation of `RBTree.rs`: heap nodes with `parent`,
    `left` and `right` links (RBTree.rs:15-34), the record
    `SavedNodeInfo` the two BST passes fill in (RBTree.rs:36-40), and the
    ghost shapes that tie a linked tree to the value model of module
    `Trees`. */
module LinkedTree {
  import opened Trees

  /** A tree node. `parent` is the back-link the repairs climb by. */
  class Node {
    var key: int
    var color: Color
    var parent: Node?
    var left: Node?
    var right: Node?

    /** `Node::new`: an unlinked node. */
    constructor (key: int, color: Color)
      ensures this.key == key && this.color == color
      ensures parent == null && left == null && right == null
    {
      this.key := key;
      this.color := color;
      parent := null;
      left := null;
      right := null;
    }
  }

  /** What the BST passes report to the repairs: the node to repair from,
      the side code of a removed leaf (1 left, 2 right, 0 none) and the
      colour of the removed node. */
  class SavedNodeInfo {
    var savedNode: Node?
    var side: int
    var deletedColor: Color

    constructor ()
      ensures savedNode == null && side == 0 && deletedColor == Black
    {
      savedNode := null;
      side := 0;
      deletedColor := Black;
    }
  }

  // ---------------------------------------------------------------------
  // Shapes: which node sits where

  /** The ghost layout of a linked subtree: its nodes, in tree form. */
  datatype Shape = Empty | Cell(node: Node, left: Shape, right: Shape)

  /** The node a link to this subtree points at (`None` is `null`). */
  function Top(s: Shape): Node? {
    if s.Cell? then s.node else null
  }

  function Nodes(s: Shape): set<Node> {
    match s
    case Empty => {}
    case Cell(n, l, r) => {n} + Nodes(l) + Nodes(r)
  }

  /** No node occurs twice. */
  predicate Distinct(s: Shape) {
    match s
    case Empty => true
    case Cell(n, l, r) =>
      Distinct(l) && Distinct(r) && n !in Nodes(l) && n !in Nodes(r) && Nodes(l) !! Nodes(r)
  }

  function Flip(d: Dir): Dir {
    if d == Left then Right else Left
  }

  /** A node's child link on side `d`. */
  function Child(n: Node, d: Dir): Node?
    reads n`left, n`right
  {
    if d == Left then n.left else n.right
  }

  /** Every node's child links point at the tops of its sub-shapes. */
  ghost predicate Wired(s: Shape)
    reads Nodes(s)`left, Nodes(s)`right
  {
    match s
    case Empty => true
    case Cell(n, l, r) => n.left == Top(l) && n.right == Top(r) && Wired(l) && Wired(r)
  }

  /** Every node's back-link points at the node above it, the top's at
      `up`. */
  ghost predicate Parented(s: Shape, up: Node?)
    reads Nodes(s)`parent
  {
    match s
    case Empty => true
    case Cell(n, l, r) => n.parent == up && Parented(l, n) && Parented(r, n)
  }

  /** A well-formed linked subtree hanging below `up`. */
  ghost predicate Linked(s: Shape, up: Node?)
    reads Nodes(s)`left, Nodes(s)`right, Nodes(s)`parent
  {
    Distinct(s) && Wired(s) && Parented(s, up)
  }

  /** The nodes strictly below the top. */
  function Under(s: Shape): set<Node> {
    if s.Cell? then Nodes(s.left) + Nodes(s.right) else {}
  }

  /** A well-formed linked subtree whose top's back-link may point anywhere:
      what is left of `Linked` while that back-link is rewritten. */
  ghost predicate Inner(s: Shape)
    reads Nodes(s)`left, Nodes(s)`right, Under(s)`parent
  {
    Distinct(s) && Wired(s) && (s.Cell? ==> Parented(s.left, s.node) && Parented(s.right, s.node))
  }

  /** The value a linked subtree stands for. */
  ghost function Abs(s: Shape): Tree
    reads Nodes(s)`key, Nodes(s)`color
  {
    match s
    case Empty => Nil
    case Cell(n, l, r) => Node(n.color, Abs(l), n.key, Abs(r))
  }

  // ---------------------------------------------------------------------
  // Trails: a node's ancestors, as followed by its back-links

  /** One ancestor: the side the subtree below hangs on, the ancestor node
      and its other sub-shape. */
  datatype Link = Link(dir: Dir, node: Node, other: Shape)

  /** Ancestors, nearest first: the focus hangs below `lk.node`, whose own
      ancestors are `rest`. */
  datatype Trail = AtRoot | Below(lk: Link, rest: Trail)

  function Hang(lk: Link, s: Shape): Shape {
    if lk.dir == Left then Cell(lk.node, s, lk.other) else Cell(lk.node, lk.other, s)
  }

  /** The whole shape: `s` hung below its ancestors. */
  function Fill(s: Shape, tr: Trail): Shape
    decreases tr
  {
    match tr
    case AtRoot => s
    case Below(lk, rest) => Fill(Hang(lk, s), rest)
  }

  /** The parent a subtree with ancestors `tr` must link to. */
  function Up(tr: Trail): Node? {
    if tr.Below? then tr.lk.node else null
  }

  function TrailNodes(tr: Trail): set<Node> {
    match tr
    case AtRoot => {}
    case Below(lk, rest) => {lk.node} + Nodes(lk.other) + TrailNodes(rest)
  }

  /** `lk` added as the outermost ancestor. */
  function Append(tr: Trail, lk: Link): Trail {
    match tr
    case AtRoot => Below(lk, AtRoot)
    case Below(l, rest) => Below(l, Append(rest, lk))
  }

  /** The value frame one ancestor stands for. */
  ghost function FrameOf(lk: Link): Frame
    reads lk.node`key, lk.node`color, Nodes(lk.other)`key, Nodes(lk.other)`color
  {
    Frame(lk.dir, lk.node.color, lk.node.key, Abs(lk.other))
  }

  /** The values of three pieces and of a trail, together: what an
      operation that rewrites a few nodes leaves as it is. */
  ghost function Pieces(a: Shape, b: Shape, c: Shape, tr: Trail): (Tree, Tree, Tree, Path)
    reads (Nodes(a) + Nodes(b) + Nodes(c) + TrailNodes(tr))`key, (Nodes(a) + Nodes(b) + Nodes(c) + TrailNodes(tr))`color
  {
    (Abs(a), Abs(b), Abs(c), AbsTrail(tr))
  }

  /** The value path a trail stands for. */
  ghost function AbsTrail(tr: Trail): Path
    reads TrailNodes(tr)`key, TrailNodes(tr)`color
  {
    match tr
    case AtRoot => []
    case Below(lk, rest) => [FrameOf(lk)] + AbsTrail(rest)
  }

  /** The ancestor of `lk` is linked to its other sub-shape and back to
      `up`; its own child links are not read. */
  ghost predicate Hung(lk: Link, up: Node?)
    reads Nodes(lk.other)`left, Nodes(lk.other)`right, Nodes(lk.other)`parent, lk.node`parent
  {
    Wired(lk.other) && Parented(lk.other, lk.node) && lk.node.parent == up
  }

  /** The ancestors are linked among themselves and to a subtree whose top
      is `top`. */
  ghost predicate TrailOk(tr: Trail, top: Node?)
    reads TrailNodes(tr)`left, TrailNodes(tr)`right, TrailNodes(tr)`parent
  {
    match tr
    case AtRoot => true
    case Below(lk, rest) =>
      && Child(lk.node, lk.dir) == top && Child(lk.node, Flip(lk.dir)) == Top(lk.other)
      && Hung(lk, Up(rest)) && TrailOk(rest, lk.node)
  }

  // ---------------------------------------------------------------------
  // Lemmas about shapes and trails

  lemma LinkedInner(s: Shape, up: Node?)
    ensures Linked(s, up) <==> Inner(s) && (s.Cell? ==> s.node.parent == up)
  {
  }

  /** A node linked to two disjoint linked subtrees tops a linked
      subtree. */
  lemma LinkedJoin(n: Node, l: Shape, r: Shape, up: Node?)
    requires n.left == Top(l) && n.right == Top(r) && n.parent == up
    requires Linked(l, n) && Linked(r, n)
    requires n !in Nodes(l) && n !in Nodes(r) && Nodes(l) !! Nodes(r)
    ensures Linked(Cell(n, l, r), up)
  {
  }

  lemma HangParts(lk: Link, s: Shape)
    ensures Nodes(Hang(lk, s)) == {lk.node} + Nodes(lk.other) + Nodes(s)
    ensures Distinct(Hang(lk, s)) <==>
      Distinct(s) && Distinct(lk.other) && lk.node !in Nodes(s) && lk.node !in Nodes(lk.other) && Nodes(s) !! Nodes(lk.other)
  {
  }

  /** One level of a linked subtree taken apart at the node of `lk`. */
  lemma LinkedHang(lk: Link, s: Shape, up: Node?)
    ensures Linked(Hang(lk, s), up) <==>
      && Linked(s, lk.node) && Linked(lk.other, lk.node)
      && Child(lk.node, lk.dir) == Top(s) && Child(lk.node, Flip(lk.dir)) == Top(lk.other) && lk.node.parent == up
      && lk.node !in Nodes(s) && lk.node !in Nodes(lk.other) && Nodes(s) !! Nodes(lk.other)
  {
  }

  lemma {:induction false} FillNodes(s: Shape, tr: Trail)
    ensures Nodes(Fill(s, tr)) == Nodes(s) + TrailNodes(tr)
    decreases tr
  {
    if tr.Below? {
      FillNodes(Hang(tr.lk, s), tr.rest);
    }
  }

  lemma {:induction false} FillAppend(s: Shape, tr: Trail, lk: Link)
    ensures Fill(s, Append(tr, lk)) == Hang(lk, Fill(s, tr))
    decreases tr
  {
    if tr.Below? {
      FillAppend(Hang(tr.lk, s), tr.rest, lk);
    }
  }

  /** The nearest ancestor of a whole shape with no repeated node is apart
      from its other sub-shape and from the ancestors above it. */
  lemma UpApart(tr: Trail)
    requires tr.Below? && Distinct(Fill(Empty, tr))
    ensures tr.lk.node !in Nodes(tr.lk.other) && tr.lk.node !in TrailNodes(tr.rest)
  {
    FillDistinct(Hang(tr.lk, Empty), tr.rest);
    HangParts(tr.lk, Empty);
  }

  /** The value path of a trail with a nearest ancestor. */
  lemma AbsTrailBelow(lk: Link, rest: Trail)
    ensures var p := AbsTrail(Below(lk, rest));
      |p| == |AbsTrail(rest)| + 1 && p[0] == FrameOf(lk) && p[1..] == AbsTrail(rest)
  {
  }

  /** The side of the node above a subtree that the source's test of its
      left link finds, and whether that left link is absent. */
  lemma UpSide(g: Shape, tr: Trail)
    requires Linked(Fill(g, tr), null) && g.Cell? && tr.Below?
    ensures tr.lk.node.left == null <==> tr.lk.dir == Right && tr.lk.other == Empty
    ensures tr.lk.node.left == g.node <==> tr.lk.dir == Left
  {
    OpenFill(g, tr);
    FillDistinct(g, tr);
    FillNodes(Hang(tr.lk, Empty), tr.rest);
    UpApart(tr);
    HangParts(tr.lk, Empty);
    assert g.node in Nodes(g);
    FillDistinct(Hang(tr.lk, Empty), tr.rest);
  }

  /** A whole shape has no repeated node exactly when its focus has none,
      its ancestors have none and the two share none. */
  lemma {:induction false} FillDistinct(s: Shape, tr: Trail)
    ensures Distinct(Fill(s, tr)) <==>
      Distinct(s) && Distinct(Fill(Empty, tr)) && Nodes(s) !! TrailNodes(tr)
    decreases tr
  {
    if tr.Below? {
      FillDistinct(Hang(tr.lk, s), tr.rest);
      FillDistinct(Hang(tr.lk, Empty), tr.rest);
      HangParts(tr.lk, s);
      HangParts(tr.lk, Empty);
    }
  }

  /** The whole tree's value is the focus's value plugged into the path. */
  lemma {:induction false} AbsFill(s: Shape, tr: Trail)
    ensures Abs(Fill(s, tr)) == Plug(Abs(s), AbsTrail(tr))
    decreases tr
  {
    if tr.Below? {
      AbsFill(Hang(tr.lk, s), tr.rest);
      assert AbsTrail(tr)[1..] == AbsTrail(tr.rest);
    }
  }

  lemma {:induction false} AbsTrailAppend(tr: Trail, lk: Link)
    ensures AbsTrail(Append(tr, lk)) == AbsTrail(tr) + [FrameOf(lk)]
  {
    if tr.Below? {
      AbsTrailAppend(tr.rest, lk);
    }
  }

  /** A whole linked tree is a linked focus whose top links to the parent,
      and a linked trail of ancestors. */
  lemma {:induction false} FillLinked(s: Shape, tr: Trail)
    requires Distinct(Fill(s, tr))
    ensures Wired(Fill(s, tr)) && Parented(Fill(s, tr), null) <==>
      Wired(s) && Parented(s, Up(tr)) && TrailOk(tr, Top(s))
    decreases tr
  {
    if tr.Below? {
      FillDistinct(Hang(tr.lk, s), tr.rest);
      FillLinked(Hang(tr.lk, s), tr.rest);
    }
  }

  /** A linked whole tree is a linked focus below a linked trail. */
  lemma OpenFill(f: Shape, tr: Trail)
    requires Linked(Fill(f, tr), null)
    ensures Linked(f, Up(tr)) && TrailOk(tr, Top(f))
    ensures Distinct(Fill(Empty, tr)) && Nodes(f) !! TrailNodes(tr)
  {
    FillDistinct(f, tr);
    FillLinked(f, tr);
  }

  /** A linked focus below a linked trail, with no node repeated, is a
      linked whole tree. */
  lemma CloseFill(f: Shape, tr: Trail)
    requires Linked(f, Up(tr)) && TrailOk(tr, Top(f))
    requires Distinct(Fill(Empty, tr)) && Nodes(f) !! TrailNodes(tr)
    ensures Linked(Fill(f, tr), null)
  {
    FillDistinct(f, tr);
    FillLinked(f, tr);
  }

  /** Below a root, the top of the whole shape is an ancestor. */
  lemma {:induction false} FillTopIn(s: Shape, tr: Trail)
    requires tr.Below?
    ensures Top(Fill(s, tr)) in TrailNodes(tr)
    decreases tr
  {
    if tr.rest.Below? {
      FillTopIn(Hang(tr.lk, s), tr.rest);
    }
  }

  /** Below a root, the top of a whole shape does not depend on its
      focus. */
  lemma {:induction false} FillTopSame(s: Shape, s': Shape, tr: Trail)
    ensures tr.Below? ==> Top(Fill(s, tr)) == Top(Fill(s', tr))
    ensures tr.AtRoot? ==> Top(Fill(s, tr)) == Top(s) && Top(Fill(s', tr)) == Top(s')
    decreases tr
  {
    if tr.Below? && tr.rest.Below? {
      FillTopSame(Hang(tr.lk, s), Hang(tr.lk, s'), tr.rest);
    }
  }

  /** The top of a whole shape is the top of its focus exactly when the
      focus has no ancestors. */
  lemma FillTop(s: Shape, tr: Trail)
    requires Distinct(Fill(s, tr)) && s.Cell?
    ensures Top(Fill(s, tr)) == s.node <==> tr == AtRoot
  {
    if tr.Below? {
      FillDistinct(s, tr);
      FillTopIn(s, tr);
    }
  }

  /** The nodes of a shape at hand are allocated. */
  lemma {:induction false} NodesAllocated(s: Shape)
    ensures forall m :: m in Nodes(s) ==> allocated(m)
  {
    match s
    case Empty =>
    case Cell(n, l, r) =>
      NodesAllocated(l);
      NodesAllocated(r);
  }

  lemma {:induction false} TrailAllocated(tr: Trail)
    ensures forall m :: m in TrailNodes(tr) ==> allocated(m)
  {
    if tr.Below? {
      NodesAllocated(tr.lk.other);
      TrailAllocated(tr.rest);
    }
  }

  /** Every node's key is one of the keys of the value it belongs to. */
  lemma {:induction false} NodeKeys(s: Shape)
    ensures forall m :: m in Nodes(s) ==> m.key in Keys(Abs(s))
  {
    match s
    case Empty =>
    case Cell(n, l, r) =>
      NodeKeys(l);
      NodeKeys(r);
  }
}
