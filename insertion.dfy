/** Insertion: the search-tree descent `insert_norm_bst` (RBTree.rs:103-145),
    the repair `red_black_tree_insertion_cover` (RBTree.rs:147-336) and the
    wrapper `insert` (RBTree.rs:338-365), as functions on values. The
    heap-level methods in linked_insert.dfy are proved against these. */
module Insertion {
  import opened Trees

  /** The node `insert_norm_bst` creates: Red, no children. */
  function RedLeaf(x: int): Tree {
    Node(Red, Nil, x, Nil)
  }

  /** Adds `f` as the outermost ancestor of a recorded site. */
  function Extend(site: Option<Path>, f: Frame): Option<Path> {
    match site
    case None => None
    case Some(p) => Some(p + [f])
  }

  /** `insert_norm_bst`: descends by `<` / `>`; at the empty slot reached it
      hangs a new Red node and records it (by its ancestor path, the model of
      the new node's `parent` link); on an equal key it changes nothing and
      records nothing. */
  function InsertBst(t: Tree, x: int): (r: (Tree, Option<Path>))
    ensures Keys(r.0) == Keys(t) + {x}
    ensures r.1.None? ==> r.0 == t && x in Keys(t)
  {
    match t
    case Nil => (RedLeaf(x), Some([]))
    case Node(c, l, k, r) =>
      if x < k then
        var (l', site) := InsertBst(l, x);
        (Node(c, l', k, r), Extend(site, Frame(Left, c, k, r)))
      else if x > k then
        var (r', site) := InsertBst(r, x);
        (Node(c, l, k, r'), Extend(site, Frame(Right, c, k, l)))
      else
        (t, None)
  }

  /** A duplicate key leaves the tree as it is and records no node; a new key
      is hung as a Red leaf at the empty slot the descent reaches, so the old
      tree is the new one with that slot empty, and the keys grow by exactly
      `x` in search-tree order. */
  lemma {:induction false} InsertBstSpec(t: Tree, x: int)
    requires Bst(t)
    ensures x in Keys(t) ==> InsertBst(t, x) == (t, None)
    ensures x !in Keys(t) ==>
      var (t', site) := InsertBst(t, x);
      && site.Some?
      && Plug(RedLeaf(x), site.value) == t'
      && Plug(Nil, site.value) == t
      && Keys(t') == Keys(t) + {x}
      && Bst(t')
  {
    match t
    case Nil =>
    case Node(c, l, k, r) =>
      BstNode(c, l, k, r);
      if x < k {
        InsertBstSpec(l, x);
        var (l', site) := InsertBst(l, x);
        assert InsertBst(t, x) == (Node(c, l', k, r), Extend(site, Frame(Left, c, k, r)));
        if x in Keys(t) {
          assert Keys(t) == Keys(l) + {k} + Keys(r);
          assert x in Keys(l);
        } else {
          PlugAppend(RedLeaf(x), site.value, Frame(Left, c, k, r));
          PlugAppend(Nil, site.value, Frame(Left, c, k, r));
          BstNode(c, l', k, r);
        }
      } else if x > k {
        InsertBstSpec(r, x);
        var (r', site) := InsertBst(r, x);
        assert InsertBst(t, x) == (Node(c, l, k, r'), Extend(site, Frame(Right, c, k, l)));
        if x in Keys(t) {
          assert Keys(t) == Keys(l) + {k} + Keys(r);
          assert x in Keys(r);
        } else {
          PlugAppend(RedLeaf(x), site.value, Frame(Right, c, k, l));
          PlugAppend(Nil, site.value, Frame(Right, c, k, l));
          BstNode(c, l, k, r');
        }
      }
  }

  /** `red_black_tree_insertion_cover` on the node `n` (a Red subtree) whose
      ancestors are `p`. Cases, in the source's order: `n` is the root and is
      recoloured Black; the parent is Black and nothing changes; a Red parent
      without a grandparent ends the process; a Red uncle (an absent one
      counts as Black) recolours grandparent Red, parent and uncle Black and
      repairs again at the grandparent; a Black uncle first rotates an inner
      grandchild into the parent's place (node and parent swap roles), then
      recolours parent Black and grandparent Red and rotates the parent into
      the grandparent's slot. Linking the parent into a great-grandparent
      whose left slot is empty unwraps an absent link and ends the process
      (RBTree.rs:257, 310). */
  function InsertFix(n: Tree, p: Path): (r: Outcome<Tree>)
    requires n.Node?
    ensures r.Done? ==> r.value.Node?
    ensures r.Fatal? ==> p != [] && p[0].color != Black
    decreases |p|
  {
    if p == [] then
      Done(Blacken(n))
    else if p[0].color == Black then
      Done(Plug(n, p))
    else if |p| < 2 then
      Fatal
    else
      var parent, grandparent := p[0], p[1];
      var uncle := grandparent.other;
      if IsRed(uncle) then
        InsertFix(RedUncleRecolor(n, parent, grandparent), p[2..])
      else
        var top := BlackUncleRotation(n, parent, grandparent);
        if |p| > 2 && p[2].dir == Right && p[2].other == Nil then Fatal
        else Done(Plug(top, p[2..]))
  }

  /** The Red-uncle case on the subtree of the grandparent: parent and
      uncle become Black, the grandparent Red. */
  function RedUncleRecolor(n: Tree, parent: Frame, grandparent: Frame): (g: Tree)
    ensures g.Node? && g.color == Red && g.key == grandparent.key
  {
    var p' := Attach(Frame(parent.dir, Black, parent.key, parent.other), n);
    Attach(Frame(grandparent.dir, Red, grandparent.key, Blacken(grandparent.other)), p')
  }

  /** The first rotation of the Black-uncle case: when `n` is an inner
      grandchild (a right child under a left parent, or the mirror) it is
      rotated into its parent's place, so that node and parent swap roles;
      otherwise the parent's subtree is kept. */
  function Straighten(n: Tree, parent: Frame, gpDir: Dir): (s: Tree)
    requires n.Node?
    ensures s.Node? && Entries(s) == Entries(Attach(parent, n))
  {
    var pNode := Attach(parent, n);
    if gpDir == Left && parent.dir == Right then RotateLeft(pNode)
    else if gpDir == Right && parent.dir == Left then RotateRight(pNode)
    else pNode
  }

  /** After the first rotation the top of the parent's subtree is Red, both
      of its children are red-black inside with the node's black-height, and
      the child on the grandparent's side of it (the one that moves under the
      grandparent) is Black. */
  lemma StraightenShape(n: Tree, parent: Frame, gpDir: Dir)
    requires n.Node? && n.color == Red && NoRedRed(n) && Balanced(n)
    requires parent.color == Red
    requires NoRedRed(parent.other) && Balanced(parent.other) && BH(parent.other) == BH(n) && !IsRed(parent.other)
    ensures var s := Straighten(n, parent, gpDir);
      s.color == Red &&
      NoRedRed(s.left) && Balanced(s.left) && BH(s.left) == BH(n) &&
      NoRedRed(s.right) && Balanced(s.right) && BH(s.right) == BH(n) &&
      (if gpDir == Left then !IsRed(s.right) else !IsRed(s.left))
  {
  }

  /** The Black-uncle case on the subtree of the grandparent: after the
      first rotation, the parent is recoloured Black, the grandparent Red,
      and the parent is rotated up into the grandparent's place. */
  function BlackUncleRotation(n: Tree, parent: Frame, grandparent: Frame): (top: Tree)
    requires n.Node?
    ensures top.Node? && top.color == Black
    ensures Entries(top) ==
      Entries(Attach(Frame(grandparent.dir, Red, grandparent.key, grandparent.other), Blacken(Straighten(n, parent, grandparent.dir))))
  {
    var s := Straighten(n, parent, grandparent.dir);
    if grandparent.dir == Left then
      RotateRight(Node(Red, Blacken(s), grandparent.key, grandparent.other))
    else
      RotateLeft(Node(Red, grandparent.other, grandparent.key, Blacken(s)))
  }

  /** With a Red node under a Red parent and a Black grandparent whose other
      child is Black, the rotation yields a Black-rooted subtree with no
      Red-Red edge, the grandparent's black-height and the same keys in the
      same order. */
  lemma BlackUncleRotationCorrect(n: Tree, parent: Frame, grandparent: Frame)
    requires n.Node? && n.color == Red && NoRedRed(n) && Balanced(n)
    requires parent.color == Red && grandparent.color == Black
    requires NoRedRed(parent.other) && Balanced(parent.other) && BH(parent.other) == BH(n) && !IsRed(parent.other)
    requires NoRedRed(grandparent.other) && Balanced(grandparent.other) && BH(grandparent.other) == BH(n)
    requires !IsRed(grandparent.other)
    ensures var top := BlackUncleRotation(n, parent, grandparent);
      NoRedRed(top) && Balanced(top) && BH(top) == BH(n) + 1 &&
      InOrder(top) == InOrder(Attach(grandparent, Attach(parent, n)))
  {
    var uncle := grandparent.other;
    var s := Straighten(n, parent, grandparent.dir);
    StraightenShape(n, parent, grandparent.dir);
    var top := BlackUncleRotation(n, parent, grandparent);
    if grandparent.dir == Left {
      assert top == Node(Black, s.left, s.key, Node(Red, s.right, grandparent.key, uncle));
    } else {
      assert top == Node(Black, Node(Red, uncle, grandparent.key, s.left), s.key, s.right);
    }
    EntriesInOrder(top, Attach(Frame(grandparent.dir, Red, grandparent.key, uncle), Blacken(s)));
    EntriesInOrder(s, Attach(parent, n));
  }

  /** The state the repair works on: a Red node whose subtree is red-black
      inside, with a Red-Red edge allowed only between it and its parent,
      black-heights in agreement all along its ancestors, and a Black root. */
  ghost predicate InsertInvariant(n: Tree, p: Path) {
    n.Node? && n.color == Red && NoRedRed(n) && Balanced(n) &&
    Fits(p, BH(n), Black) && RootBlack(p)
  }

  /** Unfolds the invariant over parent and grandparent of a Red node
      whose parent is Red. */
  lemma InsertInvariantUnfold(n: Tree, p: Path)
    requires InsertInvariant(n, p) && p != [] && p[0].color == Red
    ensures |p| >= 2 && p[1].color == Black
    ensures NoRedRed(p[0].other) && Balanced(p[0].other) && BH(p[0].other) == BH(n) && !IsRed(p[0].other)
    ensures NoRedRed(p[1].other) && Balanced(p[1].other) && BH(p[1].other) == BH(n)
    ensures Fits(p[2..], BH(n) + 1, Black) && RootBlack(p[2..])
    ensures Plug(n, p) == Plug(Attach(p[1], Attach(p[0], n)), p[2..])
  {
    assert Fits(p[1..], BH(n), Red);
    assert p[1..][1..] == p[2..];
    assert p[1..][0] == p[1];
    if |p| > 2 {
      assert p[2..][|p[2..]| - 1] == p[|p| - 1];
    }
  }

  /** After the Red-uncle recolouring the grandparent is a Red node in the
      same state one level up, with the same in-order keys. */
  lemma RedUncleStep(n: Tree, p: Path)
    requires InsertInvariant(n, p) && p != [] && p[0].color == Red
    requires |p| >= 2 && IsRed(p[1].other)
    ensures InsertInvariant(RedUncleRecolor(n, p[0], p[1]), p[2..])
    ensures InOrder(Plug(RedUncleRecolor(n, p[0], p[1]), p[2..])) == InOrder(Plug(n, p))
  {
    InsertInvariantUnfold(n, p);
    var g := Attach(p[1], Attach(p[0], n));
    var g' := RedUncleRecolor(n, p[0], p[1]);
    assert InOrder(g') == InOrder(g);
    PlugInOrder(g', g, p[2..]);
    assert BH(g') == BH(n) + 1;
  }

  /** In the Black-uncle case the repair ends with a red-black tree holding
      the same in-order keys. */
  lemma BlackUncleStep(n: Tree, p: Path)
    requires InsertInvariant(n, p) && p != [] && p[0].color == Red
    requires |p| >= 2 && !IsRed(p[1].other)
    ensures InsertFix(n, p).Done?
    ensures RedBlack(InsertFix(n, p).value)
    ensures InOrder(InsertFix(n, p).value) == InOrder(Plug(n, p))
  {
    InsertInvariantUnfold(n, p);
    var h := BH(n);
    var g := Attach(p[1], Attach(p[0], n));
    var top := BlackUncleRotation(n, p[0], p[1]);
    BlackUncleRotationCorrect(n, p[0], p[1]);
    PlugInOrder(top, g, p[2..]);
    if |p| > 2 {
      assert p[2..] == [p[2]] + p[3..];
      FitsCons(p[2], p[3..], h + 1, Black);
    }
    PlugRedBlack(top, p[2..]);
  }

  /** The repair never ends the process on such a state, leaves a red-black
      tree, and keeps the in-order key sequence. */
  lemma {:induction false} InsertFixCorrect(n: Tree, p: Path)
    requires InsertInvariant(n, p)
    ensures InsertFix(n, p).Done?
    ensures RedBlack(InsertFix(n, p).value)
    ensures InOrder(InsertFix(n, p).value) == InOrder(Plug(n, p))
    decreases |p|
  {
    if p == [] {
    } else if p[0].color == Black {
      PlugRedBlack(n, p);
    } else {
      InsertInvariantUnfold(n, p);
      if IsRed(p[1].other) {
        RedUncleStep(n, p);
        InsertFixCorrect(RedUncleRecolor(n, p[0], p[1]), p[2..]);
      } else {
        BlackUncleStep(n, p);
      }
    }
  }

  /** `insert`: the descent, then the repair at the recorded node; a
      duplicate key (no recorded node) ends the process. */
  function Insert(t: Tree, x: int): (r: Outcome<Tree>)
    ensures r.Done? ==> r.value.Node?
  {
    var (t', site) := InsertBst(t, x);
    match site
    case None => Fatal
    case Some(p) => InsertFix(RedLeaf(x), p)
  }

  /** Insertion into a valid tree: a duplicate ends the process; otherwise
      the result is a valid red-black search tree holding exactly the old
      keys and `x`. */
  lemma InsertCorrect(t: Tree, x: int)
    requires Valid(t)
    ensures x in Keys(t) ==> Insert(t, x) == Fatal
    ensures x !in Keys(t) ==> Insert(t, x).Done?
    ensures x !in Keys(t) ==> Valid(Insert(t, x).value) && Keys(Insert(t, x).value) == Keys(t) + {x}
  {
    InsertBstSpec(t, x);
    if x !in Keys(t) {
      var r := InsertBst(t, x);
      var t', p := r.0, r.1.value;
      assert Insert(t, x) == InsertFix(RedLeaf(x), p);
      PlugRedBlackInv(Nil, p);
      assert InsertInvariant(RedLeaf(x), p);
      InsertFixCorrect(RedLeaf(x), p);
      var u := InsertFix(RedLeaf(x), p).value;
      assert InOrder(u) == InOrder(t');
      KeysInOrder(u);
      KeysInOrder(t');
      forall y ensures y in Keys(u) <==> y in Keys(t') {
        assert y in InOrder(u) <==> y in InOrder(t');
      }
    }
  }
}
