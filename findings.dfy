/** Three places where RBTree.rs does something other than what its
    surrounding code evidently intends, each modelled as written beside a
    concrete input that exhibits the difference. The rest of the model uses
    the corrected behaviour: Deletion.FindLeftmost and the successor branch
    of Deletion.DeleteBst, and Repair.NearNephewRotation. */
module Findings {
  import opened Trees
  import opened Deletion
  import opened Repair
  import Validator

  // ---------------------------------------------------------------------
  // The successor branch of delete_norm_bst (RBTree.rs:526-570)

  /** The two-children case of `delete_norm_bst` under the successor policy
      as written, for Node(c, l, k, r): the replacement key is
      `find_first_left_none` of the right child, and when the right child has
      no left child the removal below is given the old node as parent
      (RBTree.rs:540), so the recorded site hangs under a frame that carries
      the removed key `k` instead of the replacement node. */
  function SuccessorSpliceAsWritten(c: Color, l: Tree, k: int, r: Tree, successor: int): (res: (Tree, Option<Saved>))
    requires l.Node? && r.Node?
    ensures res.0.Node? && res.0.left == l && res.0.color == c
  {
    var v := if r.left == Nil then r.key else FindFirstLeftNone(r).key;
    var (r', site) := DeleteBst(r, v, successor, 2);
    var parentKey := if r.left == Nil then k else v;
    (Node(c, l, v, r'), Lift(site, Frame(Right, c, parentKey, l)))
  }

  /** A valid tree whose right child has a left child with a right child. */
  function SuccessorExample(): Tree {
    Node(Black, Node(Red, B(1), 2, B(3)), 5, Node(Red, Node(Black, Nil, 7, R(8)), 10, B(12)))
  }

  lemma SuccessorExampleValid()
    ensures Valid(SuccessorExample())
  {
    var t := SuccessorExample();
    assert InOrder(t) == [1, 2, 3, 5, 7, 8, 10, 12];
    SortedFromNeighbours(InOrder(t));
  }

  /** On that tree, removing 5 with the as-written successor key breaks
      search-tree order (7 stays right of the new root 8), while the
      corrected removal keeps it. */
  lemma SuccessorKeyCounterexample()
    ensures Valid(SuccessorExample())
    ensures var t := SuccessorExample();
      !Bst(SuccessorSpliceAsWritten(t.color, t.left, t.key, t.right, 1).0)
    ensures Bst(DeleteBst(SuccessorExample(), 5, 1, 0).0)
  {
    SuccessorExampleValid();
    var t := SuccessorExample();
    var r := t.right;
    assert FindFirstLeftNone(r).key == 8;
    assert DeleteBst(r, 8, 1, 2).0 == Node(Red, B(7), 10, B(12));
    var u := SuccessorSpliceAsWritten(t.color, t.left, t.key, t.right, 1).0;
    assert u == Node(Black, Node(Red, B(1), 2, B(3)), 8, Node(Red, B(7), 10, B(12)));
    assert InOrder(u) == [1, 2, 3, 8, 7, 10, 12];
    assert InOrder(u)[3] > InOrder(u)[4];
    DeleteBstSpec(t, 5, 1, 0);
    assert 5 in Keys(t);
  }

  /** A valid tree on which the as-written site hangs under the removed
      node: rebuilding the site gives back a tree holding the removed key 5,
      not the tree the removal returns; the corrected removal records a site
      that rebuilds exactly that tree. */
  lemma SuccessorParentCounterexample()
    ensures var t := Node(Black, B(2), 5, B(10));
      var (u, site) := SuccessorSpliceAsWritten(t.color, t.left, t.key, t.right, 1);
      && Valid(t)
      && site.Some? && 5 !in Keys(u)
      && 5 in Keys(Plug(site.value.node, site.value.path))
      && Plug(site.value.node, site.value.path) != u
      && var (u', site') := DeleteBst(t, 5, 1, 0);
         site'.Some? && Plug(site'.value.node, site'.value.path) == u'
  {
    var t := Node(Black, B(2), 5, B(10));
    assert InOrder(t) == [2, 5, 10];
    SortedFromNeighbours(InOrder(t));
    var (u, site) := SuccessorSpliceAsWritten(t.color, t.left, t.key, t.right, 1);
    assert DeleteBst(B(10), 10, 1, 2) == (Nil, Some(Saved(Nil, [], 2, Black)));
    assert site.value.path == [Frame(Right, Black, 5, B(2))];
    assert u == Node(Black, B(2), 10, Nil);
    assert Plug(site.value.node, site.value.path) == Node(Black, B(2), 5, Nil);
    DeleteBstSpec(t, 5, 1, 0);
  }

  // ---------------------------------------------------------------------
  // Case 3 of red_black_tree_deletion_cover for a right child (RBTree.rs:775-790)

  /** Case 3 for a repaired node on the right, as written: the near child
      `s.right` is rotated up, but the sibling takes over the near child's
      right subtree instead of its left one, so that subtree ends up linked
      twice and the left one is dropped. */
  function NearNephewRotationAsWritten(s: Tree): (r: Tree)
    requires s.Node? && s.right.Node?
    ensures r.Node? && r.left.Node? && r.left.right == r.right
  {
    var nearChild := s.right;
    Node(Black, Node(Red, s.left, s.key, nearChild.right), nearChild.key, nearChild.right)
  }

  /** In a search tree, whenever the near child has a left subtree, its key
      is lost by the as-written rotation, while the corrected rotation keeps
      every key in order. */
  lemma NearNephewAsWrittenLosesKeys(s: Tree)
    requires s.Node? && s.right.Node? && s.right.left.Node? && Bst(s)
    ensures s.right.left.key in Keys(s)
    ensures s.right.left.key !in Keys(NearNephewRotationAsWritten(s))
    ensures InOrder(NearNephewRotation(s, Right)) == InOrder(s)
  {
    var nl := s.right;
    var y := nl.left.key;
    BstNode(s.color, s.left, s.key, nl);
    BstNode(nl.color, nl.left, nl.key, nl.right);
    BstNode(nl.left.color, nl.left.left, y, nl.left.right);
    assert y in Keys(nl.left) && y in Keys(nl);
    assert s.key < y < nl.key;
    assert Keys(NearNephewRotationAsWritten(s)) == Keys(s.left) + {s.key} + Keys(nl.right) + {nl.key} + Keys(nl.right);
  }

  /** A valid tree on which removing 35 reaches case 3 for a right child
      with the sibling 10B(5B, 15R(12B, 17B)), after case 2 at 30. */
  function NearNephewExample(): Tree {
    Node(Black, NearNephewSibling(), 20, Node(Black, B(25), 30, B(35)))
  }

  function NearNephewSibling(): Tree {
    Node(Black, B(5), 10, Node(Red, B(12), 15, B(17)))
  }

  lemma NearNephewExampleValid()
    ensures Valid(NearNephewExample())
  {
    var t := NearNephewExample();
    assert InOrder(t) == [5, 10, 12, 15, 17, 20, 25, 30, 35];
    SortedFromNeighbours(InOrder(t));
  }

  /** The removal of 35 hands that sibling to cases 3 and 4 with a Black
      near-side child, so case 3 runs on it; as written, key 12 is lost
      there, while the corrected rotation keeps all five keys in order. */
  lemma NearNephewCounterexample()
    ensures Valid(NearNephewExample())
    ensures var s := NearNephewSibling();
      var q := [Frame(Right, Black, 20, s)];
      && Delete(NearNephewExample(), 35, 0) == FarNephew(Node(Black, R(25), 30, Nil), q)
      && !IsRed(s.left) && FarChildRed(s, Right) == NearNephewRotation(s, Right)
    ensures 12 in Keys(NearNephewSibling())
    ensures 12 !in Keys(NearNephewRotationAsWritten(NearNephewSibling()))
    ensures InOrder(NearNephewRotation(NearNephewSibling(), Right)) == [5, 10, 12, 15, 17]
  {
    NearNephewExampleValid();
    NearNephewReached();
    NearNephewSiblingBst();
    NearNephewAsWrittenLosesKeys(NearNephewSibling());
  }

  /** The sibling of the example is a search tree of five keys. */
  lemma NearNephewSiblingBst()
    ensures InOrder(NearNephewSibling()) == [5, 10, 12, 15, 17] && Bst(NearNephewSibling())
  {
    var s := NearNephewSibling();
    assert InOrder(s) == [5, 10, 12, 15, 17];
    SortedFromNeighbours(InOrder(s));
  }

  /** The ancestors of the stand-in after the removal of 35 from the
      example: 30 with its remaining child 25, then the root 20. */
  function NearNephewPath(): Path {
    [Frame(Right, Black, 30, B(25)), Frame(Right, Black, 20, NearNephewSibling())]
  }

  /** Removing 35 from the example removes a Black leaf on the right and
      records the stand-in below 30. */
  lemma NearNephewRemoval()
    ensures DeleteBst(NearNephewExample(), 35, 0, 0).1 == Some(Saved(Nil, NearNephewPath(), 2, Black))
    ensures Plug(Nil, NearNephewPath()) == Node(Black, NearNephewSibling(), 20, Node(Black, B(25), 30, Nil))
  {
    var t := NearNephewExample();
    var p := NearNephewPath();
    assert DeleteBst(B(35), 35, 0, 2) == (Nil, Some(Saved(Nil, [], 2, Black)));
    assert [] + [p[0]] == [p[0]];
    assert DeleteBst(t.right, 35, 0, 2) == (Node(Black, B(25), 30, Nil), Some(Saved(Nil, [p[0]], 2, Black)));
    assert [p[0]] + [p[1]] == p;
    assert p[1..][1..] == [];
    assert Plug(Nil, p) == Plug(Attach(p[0], Nil), p[1..]);
    assert Plug(Attach(p[0], Nil), p[1..]) == Plug(Attach(p[1], Attach(p[0], Nil)), []);
  }

  /** Removing 35 from the example leaves the stand-in below 30 and, after
      one step of the repair, the sibling rooted at 10 facing cases 3 and 4. */
  lemma NearNephewReached()
    ensures var s := NearNephewSibling();
      Delete(NearNephewExample(), 35, 0) == FarNephew(Node(Black, R(25), 30, Nil), [Frame(Right, Black, 20, s)])
  {
    NearNephewRemoval();
    var p := NearNephewPath();
    var q := [Frame(Right, Black, 20, NearNephewSibling())];
    assert p[1..] == q;
    assert Delete(NearNephewExample(), 35, 0) == DeleteFix(Nil, p, Black, 2);
    assert Plug(Nil, p) != Nil && SideCode(p[0].dir) == 2 && p[0].other == B(25) && !IsRed(p[0].other);
    assert DeleteFix(Nil, p, Black, 2) == SiblingCases(Nil, p, Black, 2);
    var y := Node(Black, R(25), 30, Nil);
    assert SiblingCases(Nil, p, Black, 2) == DeleteFix(y, q, Black, 2);
    assert q[1..] == [] && Plug(y, q) != Nil && !IsRed(y) && !IsRed(q[0].other);
    assert DeleteFix(y, q, Black, 2) == SiblingCases(y, q, Black, 2);
  }

  // ---------------------------------------------------------------------
  // delete as written, with the mirrored case 3 of RBTree.rs:775-790

  /** The sibling after case 3 as written: as `Repair.FarChildRed`, except
      that for a repaired node on the right the as-written rotation is used. */
  function FarChildRedAsWritten(s: Tree, d: Dir): (s': Tree)
    requires s.Node? && (IsRed(s.left) || IsRed(s.right))
    ensures s'.Node?
    ensures d == Left || IsRed(s.left) ==> s' == FarChildRed(s, d)
  {
    if d == Left || IsRed(s.left) then FarChildRed(s, d)
    else NearNephewRotationAsWritten(s)
  }

  /** Cases 3 and 4 as written: `Repair.FarNephew` with the sibling that
      `FarChildRedAsWritten` leaves. */
  function FarNephewAsWritten(x: Tree, q: Path): (r: Outcome<Tree>)
    requires q != [] && q[0].other.Node?
    requires IsRed(q[0].other.left) || IsRed(q[0].other.right)
    ensures r.Done? ==> r.value.Node?
    ensures r.Fatal? <==> FarNephew(x, q).Fatal?
  {
    var f := q[0];
    var s' := FarChildRedAsWritten(q[0].other, f.dir);
    var sibling :=
      if f.dir == Left then Node(f.color, s'.left, s'.key, Blacken(s'.right))
      else Node(f.color, Blacken(s'.left), s'.key, s'.right);
    match RotateOnParent([Frame(f.dir, Black, f.key, sibling)] + q[1..], RotCode(f.dir))
    case Fatal => Fatal
    case Done(q') => Done(Plug(x, q'))
  }

  /** `red_black_tree_deletion_cover` as written: `Repair.DeleteFix` with
      cases 3 and 4 taken from `FarNephewAsWritten`. */
  function DeleteFixAsWritten(x: Tree, p: Path, deletedColor: Color, lor: int): (r: Outcome<Tree>)
    ensures r.Done? ==> (r.value == Nil <==> Plug(x, p) == Nil)
    ensures r.Fatal? <==> DeleteFix(x, p, deletedColor, lor).Fatal?
    decreases 2 * |p| + (if IsRed(x) then 0 else 1), 1
  {
    if Plug(x, p) == Nil then Done(Nil)
    else if deletedColor == Red then Done(Plug(x, p))
    else if p == [] || IsRed(x) then Done(Plug(Blacken(x), p))
    else if x == Nil && lor != SideCode(p[0].dir) then Fatal
    else if p[0].other == Nil then Fatal
    else
      var q0 := if IsRed(p[0].other) then RedSibling(p) else Done(p);
      match q0
      case Fatal => Fatal
      case Done(q) => SiblingCasesAsWritten(x, q, deletedColor, lor)
  }

  /** `Repair.SiblingCases` as written. */
  function SiblingCasesAsWritten(x: Tree, q: Path, deletedColor: Color, lor: int): (r: Outcome<Tree>)
    requires q != []
    ensures r.Done? ==> r.value.Node?
    ensures r.Fatal? <==> SiblingCases(x, q, deletedColor, lor).Fatal?
    decreases 2 * |q| - 1 + (if q[0].color == Red then 0 else 1), 0
  {
    var s := q[0].other;
    if s == Nil then Fatal
    else if !IsRed(s.left) && !IsRed(s.right) then
      DeleteFixAsWritten(Attach(q[0].(other := Node(Red, s.left, s.key, s.right)), x), q[1..], deletedColor, lor)
    else
      FarNephewAsWritten(x, q)
  }

  /** `delete` as written under the predecessor policy that `main` uses
      (RBTree.rs:881; `successor == 0`, whose removal `Deletion.DeleteBst`
      models as written), followed by the as-written repair. */
  function DeleteAsWritten(t: Tree, item: int): (r: Outcome<Tree>)
    ensures r.Fatal? <==> Delete(t, item, 0).Fatal?
  {
    var (t', site) := DeleteBst(t, item, 0, 0);
    match site
    case None => Fatal
    case Some(s) => DeleteFixAsWritten(s.node, s.path, s.deletedColor, s.side)
  }

  /** What the as-written `delete` leaves after removing 35 from the example
      tree: key 12 is gone and the subtree 17 appears twice. */
  function NearNephewAsWrittenResult(): Tree {
    Node(Black, Node(Black, B(5), 10, B(17)), 15, Node(Black, B(17), 20, Node(Black, R(25), 30, Nil)))
  }

  /** On a valid tree, the as-written `delete` of a present key returns a
      tree that lacks another key (12) and is no longer a search tree, yet
      the validator in `main` accepts it; the corrected `delete` returns a
      valid tree with exactly the remaining keys. */
  lemma DeleteAsWrittenCounterexample()
    ensures Valid(NearNephewExample()) && 35 in Keys(NearNephewExample()) && 12 in Keys(NearNephewExample())
    ensures DeleteAsWritten(NearNephewExample(), 35) == Done(NearNephewAsWrittenResult())
    ensures 12 !in Keys(NearNephewAsWrittenResult()) && !Bst(NearNephewAsWrittenResult())
    ensures Validator.Check(NearNephewAsWrittenResult(), true) >= 0
    ensures Delete(NearNephewExample(), 35, 0).Done?
    ensures Valid(Delete(NearNephewExample(), 35, 0).value)
    ensures Keys(Delete(NearNephewExample(), 35, 0).value) == Keys(NearNephewExample()) - {35}
  {
    NearNephewExampleValid();
    DeleteCorrect(NearNephewExample(), 35, 0);
    DeleteAsWrittenReached();
    AsWrittenResultBroken();
  }

  /** The as-written result lacks 12, repeats 17 out of order, and still
      passes the validator. */
  lemma AsWrittenResultBroken()
    ensures 12 !in Keys(NearNephewAsWrittenResult()) && !Bst(NearNephewAsWrittenResult())
    ensures Validator.Check(NearNephewAsWrittenResult(), true) >= 0
  {
    var u := NearNephewAsWrittenResult();
    assert InOrder(u.left) == [5, 10, 17];
    assert InOrder(u)[2] == 17 && InOrder(u)[3] == 15;
    var w := u.right.right;
    assert Validator.Check(w, false) == 1;
    assert Validator.Check(u.right, false) == 2;
    assert Validator.Check(u.left, false) == 2;
  }

  /** The as-written `delete` of 35 follows the same steps as the corrected
      one up to cases 3 and 4, and the as-written case 3 then gives
      `NearNephewAsWrittenResult`. */
  lemma DeleteAsWrittenReached()
    ensures DeleteAsWritten(NearNephewExample(), 35) == Done(NearNephewAsWrittenResult())
  {
    NearNephewRemoval();
    AsWrittenCaseTwo();
    AsWrittenAtRoot();
    FarNephewAsWrittenExample();
  }

  /** The as-written repair from the stand-in below 30 applies case 2 and
      moves up to 30. */
  lemma AsWrittenCaseTwo()
    ensures DeleteFixAsWritten(Nil, NearNephewPath(), Black, 2) ==
      DeleteFixAsWritten(Node(Black, R(25), 30, Nil), [Frame(Right, Black, 20, NearNephewSibling())], Black, 2)
  {
    NearNephewRemoval();
    var p := NearNephewPath();
    assert p[1..] == [Frame(Right, Black, 20, NearNephewSibling())];
    assert Plug(Nil, p) != Nil && SideCode(p[0].dir) == 2 && p[0].other == B(25) && !IsRed(p[0].other);
    assert DeleteFixAsWritten(Nil, p, Black, 2) == SiblingCasesAsWritten(Nil, p, Black, 2);
  }

  /** At 30 the as-written repair meets the Black sibling 10 with a Red
      child and turns to cases 3 and 4. */
  lemma AsWrittenAtRoot()
    ensures var y := Node(Black, R(25), 30, Nil);
      var q := [Frame(Right, Black, 20, NearNephewSibling())];
      DeleteFixAsWritten(y, q, Black, 2) == FarNephewAsWritten(y, q)
  {
    var y := Node(Black, R(25), 30, Nil);
    var q := [Frame(Right, Black, 20, NearNephewSibling())];
    assert q[1..] == [] && Plug(y, q) == Plug(Attach(q[0], y), q[1..]) && Plug(y, q) != Nil;
    assert !IsRed(y) && !IsRed(q[0].other);
    assert DeleteFixAsWritten(y, q, Black, 2) == SiblingCasesAsWritten(y, q, Black, 2);
  }

  /** Cases 3 and 4 as written on the example's sibling, with the repaired
      node 30 on the right: 17 ends up on both sides of 15. */
  lemma FarNephewAsWrittenExample()
    ensures var y := Node(Black, R(25), 30, Nil);
      FarNephewAsWritten(y, [Frame(Right, Black, 20, NearNephewSibling())]) == Done(NearNephewAsWrittenResult())
  {
    var s := NearNephewSibling();
    var y := Node(Black, R(25), 30, Nil);
    var q := [Frame(Right, Black, 20, s)];
    var sibling := Node(Black, Node(Black, B(5), 10, B(17)), 15, B(17));
    assert FarChildRedAsWritten(s, Right) == Node(Black, Node(Red, B(5), 10, B(17)), 15, B(17));
    assert [Frame(Right, Black, 20, sibling)] + q[1..] == [Frame(Right, Black, 20, sibling)];
    var q' := [Frame(Right, Black, 20, B(17)), Frame(Right, Black, 15, Node(Black, B(5), 10, B(17)))];
    assert RotCode(Right) == 0;
    assert [Frame(Right, Black, 20, B(17)), Frame(Right, Black, 15, sibling.left)] + [Frame(Right, Black, 20, sibling)][1..] == q';
    assert RotateOnParent([Frame(Right, Black, 20, sibling)], RotCode(Right)) == Done(q');
    assert Plug(y, q') == Plug(Attach(q'[0], y), q'[1..]);
  }
}
