/** Deletion, first half: the extremum helpers `find_first_right_none` and
    `find_first_left_none` (RBTree.rs:367-383) and the search-tree removal
    `delete_norm_bst` (RBTree.rs:385-574), as functions on values. */
module Deletion {
  import opened Trees

  // ---------------------------------------------------------------------
  // Extremum helpers

  /** `find_first_right_none`: follows right links down to the first node
      without a right child. */
  function FindFirstRightNone(t: Tree): (m: Tree)
    requires t.Node?
    ensures m.Node? && m.right == Nil && m.key in Keys(t)
  {
    if t.right == Nil then t else FindFirstRightNone(t.right)
  }

  /** In a search tree that node holds the largest key. */
  lemma {:induction false} FindFirstRightNoneMax(t: Tree)
    requires t.Node? && Bst(t)
    ensures forall y :: y in Keys(t) ==> y <= FindFirstRightNone(t).key
  {
    BstNode(t.color, t.left, t.key, t.right);
    if t.right != Nil {
      FindFirstRightNoneMax(t.right);
    }
  }

  /** `find_first_left_none` as written: the node itself when it has no
      left child, and otherwise the first node without a right child below
      its left child (the walk switches to right links after one step). */
  function FindFirstLeftNone(t: Tree): (m: Tree)
    requires t.Node?
    ensures m.Node? && m.key in Keys(t)
    ensures t.left != Nil ==> m.right == Nil && m.key in Keys(t.left)
  {
    if t.left == Nil then t else FindFirstRightNone(t.left)
  }

  /** Below a left child, that walk reaches the largest key of the left
      subtree, not the smallest key of the whole subtree. */
  lemma FindFirstLeftNoneIsLeftMax(t: Tree)
    requires t.Node? && t.left.Node? && Bst(t)
    ensures forall y :: y in Keys(t.left) ==> y <= FindFirstLeftNone(t).key
    ensures FindFirstLeftNone(t).key < t.key
  {
    BstNode(t.color, t.left, t.key, t.right);
    FindFirstRightNoneMax(t.left);
  }

  /** The leftmost node: what the successor branch of `delete_norm_bst`
      needs, and what `find_first_left_none` was evidently meant to return. */
  function FindLeftmost(t: Tree): (m: Tree)
    requires t.Node?
    ensures m.Node? && m.left == Nil && m.key in Keys(t)
  {
    if t.left == Nil then t else FindLeftmost(t.left)
  }

  /** In a search tree the leftmost node holds the smallest key. */
  lemma {:induction false} FindLeftmostMin(t: Tree)
    requires t.Node? && Bst(t)
    ensures forall y :: y in Keys(t) ==> FindLeftmost(t).key <= y
  {
    BstNode(t.color, t.left, t.key, t.right);
    if t.left != Nil {
      FindLeftmostMin(t.left);
    }
  }

  // ---------------------------------------------------------------------
  // The removal

  /** What `delete_norm_bst` records in `SavedNodeInfo`: the node where
      repair starts (`node`, a subtree of the new tree, reached through the
      ancestors `path`; Nil is the Black stand-in that takes the place of a
      removed leaf and is never linked into the tree), the side code
      `is_left_or_right_child` (1 left, 2 right, 0 when not set) and the
      colour of the removed node. */
  datatype Saved = Saved(node: Tree, path: Path, side: int, deletedColor: Color)

  /** Adds `f` as the outermost ancestor of a recorded site. */
  function Lift(site: Option<Saved>, f: Frame): Option<Saved> {
    match site
    case None => None
    case Some(s) => Some(s.(path := s.path + [f]))
  }

  /** `delete_norm_bst` on the subtree `t`, `side` being the side code of
      `t` under its parent (0 at the root). It descends by `<` / `>`; an
      absent key changes nothing and records nothing. A leaf is removed and
      the stand-in recorded with the side code; a node with one child is
      replaced by that child, which is recorded. A node with two children is
      rebuilt, in its own colour, around the key of the largest node of the
      left subtree (`successor == 0`), reached by `find_first_right_none`,
      or of the smallest node of the right subtree, and that key is then
      removed from that subtree. */
  function DeleteBst(t: Tree, item: int, successor: int, side: int): (r: (Tree, Option<Saved>))
    ensures item !in Keys(t) ==> r == (t, None)
    ensures Keys(r.0) <= Keys(t)
  {
    match t
    case Nil => (Nil, None)
    case Node(c, l, k, r) =>
      if item < k then
        var (l', site) := DeleteBst(l, item, successor, 1);
        (Node(c, l', k, r), Lift(site, Frame(Left, c, k, r)))
      else if item > k then
        var (r', site) := DeleteBst(r, item, successor, 2);
        (Node(c, l, k, r'), Lift(site, Frame(Right, c, k, l)))
      else if l == Nil && r == Nil then
        (Nil, Some(Saved(Nil, [], side, c)))
      else if r == Nil then
        (l, Some(Saved(l, [], 0, c)))
      else if l == Nil then
        (r, Some(Saved(r, [], 0, c)))
      else if successor == 0 then
        var v := if l.right == Nil then l.key else FindFirstRightNone(l).key;
        var (l', site) := DeleteBst(l, v, successor, 1);
        (Node(c, l', v, r), Lift(site, Frame(Left, c, v, r)))
      else
        var v := if r.left == Nil then r.key else FindLeftmost(r).key;
        var (r', site) := DeleteBst(r, v, successor, 2);
        (Node(c, l, v, r'), Lift(site, Frame(Right, c, v, l)))
  }

  /** What removing `item` from the search tree `t` promises: an absent
      key leaves the tree as it is and records nothing. A present key is
      removed: the keys lose exactly `item`, the order is kept, the recorded
      site sits in the new tree, its outermost ancestor has the old root's
      colour, and a recorded stand-in carries the side of the slot it
      stands for. */
  ghost predicate Removes(t: Tree, item: int, successor: int, side: int) {
    && (item !in Keys(t) ==> DeleteBst(t, item, successor, side) == (t, None))
    && (item in Keys(t) ==>
      var (t', site) := DeleteBst(t, item, successor, side);
      && site.Some?
      && Plug(site.value.node, site.value.path) == t'
      && Keys(t') == Keys(t) - {item}
      && Bst(t')
      && (site.value.path != [] ==> site.value.path[|site.value.path| - 1].color == ColorOf(t))
      && (site.value.node == Nil ==>
            site.value.side == if site.value.path == [] then side else SideCode(site.value.path[0].dir)))
  }

  /** On a search tree: an absent key leaves the tree as it is and records
      nothing. A present key is removed: the keys lose exactly `item`, the
      order is kept, the recorded site sits in the new tree, its outermost
      ancestor has the old root's colour, and a recorded stand-in carries
      the side of the slot it stands for. */
  lemma {:induction false} DeleteBstSpec(t: Tree, item: int, successor: int, side: int)
    requires Bst(t)
    ensures item !in Keys(t) ==> DeleteBst(t, item, successor, side) == (t, None)
    ensures item in Keys(t) ==>
      var (t', site) := DeleteBst(t, item, successor, side);
      && site.Some?
      && Plug(site.value.node, site.value.path) == t'
      && Keys(t') == Keys(t) - {item}
      && Bst(t')
      && (site.value.path != [] ==> site.value.path[|site.value.path| - 1].color == ColorOf(t))
      && (site.value.node == Nil ==>
            site.value.side == if site.value.path == [] then side else SideCode(site.value.path[0].dir))
    decreases t, 1
  {
    match t
    case Nil =>
    case Node(c, l, k, r) =>
      if item < k || (item == k && l != Nil && r != Nil && successor == 0) {
        RemovesLeft(c, l, k, r, item, successor, side);
      } else if item > k || (item == k && l != Nil && r != Nil) {
        RemovesRight(c, l, k, r, item, successor, side);
      } else {
        BstNode(c, l, k, r);
        assert Keys(t) == Keys(l) + {k} + Keys(r);
      }
  }

  /** The cases that recurse into the left subtree: `item` below the key,
      or the key itself removed in favour of the largest key on the left. */
  lemma {:induction false} RemovesLeft(c: Color, l: Tree, k: int, r: Tree, item: int, successor: int, side: int)
    requires Bst(Node(c, l, k, r))
    requires item < k || (item == k && l != Nil && r != Nil && successor == 0)
    ensures Removes(Node(c, l, k, r), item, successor, side)
    decreases Node(c, l, k, r), 0
  {
    var t := Node(c, l, k, r);
    BstNode(c, l, k, r);
    assert Keys(t) == Keys(l) + {k} + Keys(r);
    if item < k {
      DeleteBstSpec(l, item, successor, 1);
      var (l', site) := DeleteBst(l, item, successor, 1);
      assert DeleteBst(t, item, successor, side) == (Node(c, l', k, r), Lift(site, Frame(Left, c, k, r)));
      if item in Keys(t) {
        assert item in Keys(l);
        LiftSite(site.value, Frame(Left, c, k, r));
        BstNode(c, l', k, r);
      }
    } else {
      var v := if l.right == Nil then l.key else FindFirstRightNone(l).key;
      assert v == FindFirstRightNone(l).key;
      FindFirstRightNoneMax(l);
      DeleteBstSpec(l, v, successor, 1);
      var (l', site) := DeleteBst(l, v, successor, 1);
      assert DeleteBst(t, item, successor, side) == (Node(c, l', v, r), Lift(site, Frame(Left, c, v, r)));
      LiftSite(site.value, Frame(Left, c, v, r));
      BstNode(c, l', v, r);
    }
  }

  /** The cases that recurse into the right subtree: `item` above the key,
      or the key itself removed in favour of the smallest key on the right. */
  lemma {:induction false} RemovesRight(c: Color, l: Tree, k: int, r: Tree, item: int, successor: int, side: int)
    requires Bst(Node(c, l, k, r))
    requires item > k || (item == k && l != Nil && r != Nil && successor != 0)
    ensures Removes(Node(c, l, k, r), item, successor, side)
    decreases Node(c, l, k, r), 0
  {
    var t := Node(c, l, k, r);
    BstNode(c, l, k, r);
    assert Keys(t) == Keys(l) + {k} + Keys(r);
    if item > k {
      DeleteBstSpec(r, item, successor, 2);
      var (r', site) := DeleteBst(r, item, successor, 2);
      assert DeleteBst(t, item, successor, side) == (Node(c, l, k, r'), Lift(site, Frame(Right, c, k, l)));
      if item in Keys(t) {
        assert item in Keys(r);
        LiftSite(site.value, Frame(Right, c, k, l));
        BstNode(c, l, k, r');
      }
    } else {
      var v := if r.left == Nil then r.key else FindLeftmost(r).key;
      assert v == FindLeftmost(r).key;
      FindLeftmostMin(r);
      DeleteBstSpec(r, v, successor, 2);
      var (r', site) := DeleteBst(r, v, successor, 2);
      assert DeleteBst(t, item, successor, side) == (Node(c, l, v, r'), Lift(site, Frame(Right, c, v, l)));
      LiftSite(site.value, Frame(Right, c, v, l));
      BstNode(c, l, v, r');
    }
  }

  /** Lifting a site through one ancestor: the site is rebuilt into that
      ancestor, the ancestor becomes the outermost frame, and the nearest
      frame stays the same unless the site had no ancestors before. */
  lemma LiftSite(s: Saved, f: Frame)
    ensures Lift(Some(s), f).value.node == s.node && Lift(Some(s), f).value.side == s.side
    ensures Plug(s.node, s.path + [f]) == Attach(f, Plug(s.node, s.path))
    ensures (s.path + [f])[|s.path + [f]| - 1] == f
    ensures (s.path + [f])[0] == if s.path == [] then f else s.path[0]
  {
    PlugAppend(s.node, s.path, f);
  }

  // ---------------------------------------------------------------------
  // The state handed to the repair

  /** The state `red_black_tree_deletion_cover` works on after a Black node
      was removed: the subtree at `x` has one Black node too few on every
      path, so it fits its ancestors as a Black subtree one level higher;
      inside it every invariant holds except that `x` itself may be Red
      with a Red child; the root of the whole tree is Black. */
  ghost predicate DelInv(x: Tree, p: Path) {
    NoRedRed(Blacken(x)) && Balanced(x) && Fits(p, BH(x) + 1, Black) && RootBlack(p)
  }

  /** A subtree that fits its ancestors still fits when it is replaced by
      one of the same black-height that is no redder. */
  lemma FitsNoRedder(p: Path, h: nat, c: Color, c': Color)
    requires Fits(p, h, c) && (c' == Red ==> c == Red)
    ensures Fits(p, h, c')
  {
    if c' == Black {
      FitsBlack(p, h, c);
    }
  }

  /** A red-black subtree hung under a frame fits the frame and the
      frame's ancestors exactly when the node the frame describes fits the
      ancestors. */
  lemma FitsUnder(f: Frame, t: Tree, p: Path)
    requires NoRedRed(t) && Balanced(t)
    ensures Fits([f] + p, BH(t), ColorOf(t)) <==>
      NoRedRed(Attach(f, t)) && Balanced(Attach(f, t)) && Fits(p, BH(Attach(f, t)), f.color)
  {
    FitsCons(f, p, BH(t), ColorOf(t));
  }

  /** Removing a present key below ancestors `p` that the subtree fits:
      a Red removed node leaves a subtree that still fits (same
      black-height, no redder); a Black one leaves the recorded site in the
      repair state, seen from the root of the whole tree. */
  lemma {:induction false} DeleteBstRB(t: Tree, item: int, successor: int, side: int, p: Path)
    requires Bst(t) && item in Keys(t)
    requires NoRedRed(t) && Balanced(t) && Fits(p, BH(t), ColorOf(t))
    requires if p == [] then !IsRed(t) else RootBlack(p)
    ensures var (t', site) := DeleteBst(t, item, successor, side);
      && site.Some?
      && (site.value.deletedColor == Red ==>
            NoRedRed(t') && Balanced(t') && BH(t') == BH(t) && (IsRed(t') ==> IsRed(t)))
      && (site.value.deletedColor == Black ==> DelInv(site.value.node, site.value.path + p))
    decreases t, 1
  {
    match t
    case Node(c, l, k, r) =>
      BstNode(c, l, k, r);
      assert Keys(t) == Keys(l) + {k} + Keys(r);
      if item < k {
        DeleteBstDown(c, l, k, r, item, successor, 1, Frame(Left, c, k, r), p);
        assert DeleteBst(t, item, successor, side) == DeleteBstUp(c, l, k, r, item, successor, 1, Frame(Left, c, k, r));
      } else if item > k {
        DeleteBstDown(c, l, k, r, item, successor, 2, Frame(Right, c, k, l), p);
        assert DeleteBst(t, item, successor, side) == DeleteBstUp(c, l, k, r, item, successor, 2, Frame(Right, c, k, l));
      } else if l == Nil && r == Nil {
        assert [] + p == p;
      } else if r == Nil {
        BHZeroIsRedLeaf(l);
        assert [] + p == p;
      } else if l == Nil {
        BHZeroIsRedLeaf(r);
        assert [] + p == p;
        assert BH(t) == 1;
      } else if successor == 0 {
        var v := if l.right == Nil then l.key else FindFirstRightNone(l).key;
        assert v == FindFirstRightNone(l).key;
        DeleteBstDown(c, l, k, r, v, successor, 1, Frame(Left, c, v, r), p);
        assert DeleteBst(t, item, successor, side) == DeleteBstUp(c, l, k, r, v, successor, 1, Frame(Left, c, v, r));
      } else {
        var v := if r.left == Nil then r.key else FindLeftmost(r).key;
        assert v == FindLeftmost(r).key;
        DeleteBstDown(c, l, k, r, v, successor, 2, Frame(Right, c, v, l), p);
        assert DeleteBst(t, item, successor, side) == DeleteBstUp(c, l, k, r, v, successor, 2, Frame(Right, c, v, l));
      }
  }

  /** One level of the removal: `key` is removed from the child on the
      `f.dir` side of Node(c, l, k, r) (side code `side`) and the result is
      hung back under the frame `f`, which keeps the node's colour and other
      child. */
  function DeleteBstUp(c: Color, l: Tree, k: int, r: Tree, key: int, successor: int, side: int, f: Frame): (Tree, Option<Saved>)
  {
    var child := if f.dir == Left then l else r;
    var (child', site) := DeleteBst(child, key, successor, side);
    (Attach(f, child'), Lift(site, f))
  }

  /** The inductive step of DeleteBstRB for one level. */
  lemma {:induction false} DeleteBstDown(c: Color, l: Tree, k: int, r: Tree, key: int, successor: int, side: int, f: Frame, p: Path)
    requires f.color == c && (if f.dir == Left then f.other == r else f.other == l)
    requires var child := if f.dir == Left then l else r;
      Bst(child) && key in Keys(child)
    requires NoRedRed(Node(c, l, k, r)) && Balanced(Node(c, l, k, r)) && Fits(p, BH(Node(c, l, k, r)), c)
    requires if p == [] then c == Black else RootBlack(p)
    ensures var (t', site) := DeleteBstUp(c, l, k, r, key, successor, side, f);
      && site.Some?
      && (site.value.deletedColor == Red ==>
            NoRedRed(t') && Balanced(t') && BH(t') == BH(Node(c, l, k, r)) && (IsRed(t') ==> c == Red))
      && (site.value.deletedColor == Black ==> DelInv(site.value.node, site.value.path + p))
    decreases Node(c, l, k, r), 0
  {
    var child := if f.dir == Left then l else r;
    var q := [f] + p;
    assert BH(child) + BlackCount(c) == BH(Node(c, l, k, r));
    FitsCons(f, p, BH(child), ColorOf(child));
    assert Fits(q, BH(child), ColorOf(child));
    assert q[|q| - 1] == if p == [] then f else p[|p| - 1];
    DeleteBstRB(child, key, successor, side, q);
    var (child', site) := DeleteBst(child, key, successor, side);
    var s := site.value;
    if s.deletedColor == Red {
      assert Attach(f, child') == if f.dir == Left then Node(c, child', f.key, r) else Node(c, l, f.key, child');
    } else {
      assert s.path + [f] + p == s.path + q;
    }
  }

  /** A node of black-height zero in a red-black subtree hanging beside an
      absent child is a Red leaf. */
  lemma BHZeroIsRedLeaf(t: Tree)
    requires t.Node? && NoRedRed(t) && Balanced(t) && BH(t) == 0
    ensures t.color == Red && t.left == Nil && t.right == Nil
  {
  }
}
