/** Deletion, second half: the rotation primitive `rotate_on_parent`
    (RBTree.rs:577-631), the double-black repair
    `red_black_tree_deletion_cover` (RBTree.rs:633-819) and the wrapper
    `delete` (RBTree.rs:821-863), as functions on values. */
module Repair {
  import opened Trees
  import opened Deletion

  /** The rotation code the repair passes to `rotate_on_parent`: 1 when the
      repaired node is a left child (its sibling is the right child and moves
      up to the left), 0 when it is a right child. */
  function RotCode(d: Dir): int {
    if d == Left then 1 else 0
  }

  /** `rotate_on_parent` for the node whose ancestors are `p`: its sibling
      `s` (the parent's other child) takes the parent's slot under the
      grandparent, or becomes the root; `s`'s near child moves to the parent
      and the parent becomes `s`'s child. The result is the node's new
      ancestor path: the parent, then `s`, then the old grandparent and up.
      Relinking a parent that is a right child, under a grandparent whose
      left slot is empty, unwraps the absent left link (RBTree.rs:592) and
      ends the process. */
  function RotateOnParent(p: Path, lor: int): (r: Outcome<Path>)
    requires p != [] && p[0].other.Node?
    requires p[0].dir == if lor != 0 then Left else Right
    ensures r.Fatal? <==> |p| > 1 && p[1].dir == Right && p[1].other == Nil
    ensures r.Done? ==>
      && |r.value| == |p| + 1
      && r.value[0].dir == p[0].dir && r.value[0].color == p[0].color && r.value[0].key == p[0].key
      && r.value[1].color == p[0].other.color && r.value[1].key == p[0].other.key
      && r.value[2..] == p[1..]
  {
    if |p| > 1 && p[1].dir == Right && p[1].other == Nil then
      Fatal
    else
      var f, s := p[0], p[0].other;
      if lor != 0 then
        Done([Frame(Left, f.color, f.key, s.left), Frame(Left, s.color, s.key, s.right)] + p[1..])
      else
        Done([Frame(Right, f.color, f.key, s.right), Frame(Right, s.color, s.key, s.left)] + p[1..])
  }

  /** The rotation keeps the whole tree's in-order sequence of keys and
      colours. */
  lemma RotateOnParentEntries(x: Tree, p: Path, lor: int)
    requires p != [] && p[0].other.Node?
    requires p[0].dir == if lor != 0 then Left else Right
    requires RotateOnParent(p, lor).Done?
    ensures Entries(Plug(x, RotateOnParent(p, lor).value)) == Entries(Plug(x, p))
  {
    var q := RotateOnParent(p, lor).value;
    var u := Attach(q[1], Attach(q[0], x));
    assert q[1..][1..] == p[1..];
    assert Plug(x, q) == Plug(u, p[1..]);
    assert Plug(x, p) == Plug(Attach(p[0], x), p[1..]);
    if lor != 0 {
      assert u == RotateLeft(Attach(p[0], x));
    } else {
      assert u == RotateRight(Attach(p[0], x));
    }
    PlugEntries(u, Attach(p[0], x), p[1..]);
  }

  // ---------------------------------------------------------------------
  // The cases of the repair

  /** Case 1, Red sibling: the sibling becomes Black, the parent Red, and
      the parent is rotated down towards the repaired node. */
  function RedSibling(p: Path): (r: Outcome<Path>)
    requires p != [] && p[0].other.Node?
    ensures r.Done? ==> |r.value| == |p| + 1 && r.value[0].dir == p[0].dir && r.value[0].color == Red
  {
    var f, s := p[0], p[0].other;
    RotateOnParent([Frame(f.dir, Red, f.key, Node(Black, s.left, s.key, s.right))] + p[1..], RotCode(f.dir))
  }

  /** Case 3, the sibling's near child Red and its far child not: the near
      child becomes Black, the sibling Red, and the near child is rotated up
      into the sibling's place. `d` is the side of the repaired node. */
  function NearNephewRotation(s: Tree, d: Dir): (r: Tree)
    requires s.Node? && (if d == Left then s.left.Node? else s.right.Node?)
    ensures r.Node? && InOrder(r) == InOrder(s)
  {
    if d == Left then
      RotateRight(Node(Red, Blacken(s.left), s.key, s.right))
    else
      RotateLeft(Node(Red, s.left, s.key, Blacken(s.right)))
  }

  /** The sibling after case 3: rotated when its far child (on the side
      away from the repaired node, which is on side `d`) is not Red. */
  function FarChildRed(s: Tree, d: Dir): (s': Tree)
    requires s.Node? && (IsRed(s.left) || IsRed(s.right))
    ensures s'.Node? && InOrder(s') == InOrder(s)
  {
    if d == Left then (if IsRed(s.right) then s else NearNephewRotation(s, Left))
    else (if IsRed(s.left) then s else NearNephewRotation(s, Right))
  }

  /** Cases 3 and 4, a non-Red sibling with a Red child: after case 3 makes
      the far child Red, the sibling takes the parent's colour, the parent
      and the far child become Black, and the parent is rotated down. This
      ends the repair. */
  function FarNephew(x: Tree, q: Path): (r: Outcome<Tree>)
    requires q != [] && q[0].other.Node?
    requires IsRed(q[0].other.left) || IsRed(q[0].other.right)
    ensures r.Done? ==> r.value.Node?
    ensures r.Fatal? <==> |q| > 1 && q[1].dir == Right && q[1].other == Nil
  {
    var f := q[0];
    var s' := FarChildRed(q[0].other, f.dir);
    var sibling :=
      if f.dir == Left then Node(f.color, s'.left, s'.key, Blacken(s'.right))
      else Node(f.color, Blacken(s'.left), s'.key, s'.right);
    match RotateOnParent([Frame(f.dir, Black, f.key, sibling)] + q[1..], RotCode(f.dir))
    case Fatal => Fatal
    case Done(q') => Done(Plug(x, q'))
  }

  /** `red_black_tree_deletion_cover` at the node `x` (Nil for the stand-in)
      with ancestors `p`, `deletedColor` the removed node's colour and `lor`
      the recorded side code. In the source's order: an empty tree, or a Red
      removed node, needs nothing; a root or Red `x` is recoloured Black. A
      stand-in whose side code is 0 ends the process, and so does one whose
      code names the empty slot it stands for, or an absent sibling (the
      sibling is unwrapped). Then: a Red sibling is handled by case 1 first;
      if the sibling's children are both non-Red (case 2) the sibling
      becomes Red and the repair moves up to the parent; otherwise cases 3
      and 4 end it. */
  function DeleteFix(x: Tree, p: Path, deletedColor: Color, lor: int): (r: Outcome<Tree>)
    ensures r.Done? ==> (r.value == Nil <==> Plug(x, p) == Nil)
    decreases 2 * |p| + (if IsRed(x) then 0 else 1), 1
  {
    if Plug(x, p) == Nil then Done(Nil)
    else if deletedColor == Red then Done(Plug(x, p))
    else if p == [] || IsRed(x) then Done(Plug(Blacken(x), p))
    else if x == Nil && lor != SideCode(p[0].dir) then Fatal
    else if p[0].other == Nil then Fatal
    else
      var q0 := if IsRed(p[0].other) then RedSibling(p) else Done(p);
      match q0
      case Fatal => Fatal
      case Done(q) => SiblingCases(x, q, deletedColor, lor)
  }

  /** The repair once the sibling `q[0].other` is not Red: case 2 if both of
      its children are non-Red (an absent sibling is unwrapped and ends the
      process), cases 3 and 4 otherwise. */
  function SiblingCases(x: Tree, q: Path, deletedColor: Color, lor: int): (r: Outcome<Tree>)
    requires q != []
    ensures r.Done? ==> r.value.Node?
    decreases 2 * |q| - 1 + (if q[0].color == Red then 0 else 1), 0
  {
    var s := q[0].other;
    if s == Nil then Fatal
    else if !IsRed(s.left) && !IsRed(s.right) then
      DeleteFix(Attach(q[0].(other := Node(Red, s.left, s.key, s.right)), x), q[1..], deletedColor, lor)
    else
      FarNephew(x, q)
  }

  // ---------------------------------------------------------------------
  // Correctness of the repair

  /** What the repair needs: after a Red removal the tree is red-black;
      after a Black one the node is in the repair state and a stand-in's
      side code names its own slot. */
  ghost predicate RepairReady(x: Tree, p: Path, deletedColor: Color, lor: int) {
    (deletedColor == Red ==> RedBlack(Plug(x, p))) &&
    (deletedColor == Black ==> DelInv(x, p) && (x == Nil && p != [] ==> lor == SideCode(p[0].dir)))
  }

  /** Unfolds the repair state one level: the sibling is a red-black subtree
      one Black node taller than `x` (so it exists), and the parent fits the
      grandparent with the deficit carried up. */
  lemma DelInvUnfold(x: Tree, p: Path)
    requires DelInv(x, p) && p != []
    ensures p[0].other.Node? && NoRedRed(p[0].other) && Balanced(p[0].other)
    ensures BH(p[0].other) == BH(x) + 1
    ensures p[0].color == Red ==> !IsRed(p[0].other)
    ensures Fits(p[1..], BH(x) + 1 + BlackCount(p[0].color), p[0].color)
    ensures |p| > 1 ==> p[1].other.Node?
    ensures RootBlack(p[1..]) && (|p| == 1 ==> p[0].color == Black)
    ensures Plug(x, p) == Plug(Attach(p[0], x), p[1..])
  {
    if |p| > 1 {
      assert p[1..][0] == p[1];
      assert p[1..][|p[1..]| - 1] == p[|p| - 1];
    }
  }

  /** Case 1 keeps the repair state, one level deeper under a Red parent
      whose new other child is Black, and keeps the in-order keys. */
  lemma RedSiblingCorrect(x: Tree, p: Path)
    requires DelInv(x, p) && p != [] && !IsRed(x) && IsRed(p[0].other)
    ensures RedSibling(p).Done?
    ensures var q := RedSibling(p).value;
      DelInv(x, q) && !IsRed(q[0].other) && InOrder(Plug(x, q)) == InOrder(Plug(x, p))
  {
    RedSiblingShape(x, p);
    RedSiblingKeys(x, p);
  }

  /** The path case 1 leaves: the new sibling is the old sibling's near
      child, Black, under the old parent made Red, under the old sibling
      made Black; the repair state still holds. */
  lemma RedSiblingShape(x: Tree, p: Path)
    requires DelInv(x, p) && p != [] && !IsRed(x) && IsRed(p[0].other)
    ensures RedSibling(p).Done?
    ensures var q := RedSibling(p).value;
      DelInv(x, q) && !IsRed(q[0].other)
  {
    DelInvUnfold(x, p);
    var h := BH(x);
    var f, s := p[0], p[0].other;
    assert f.color == Black;
    assert BH(s.left) == h + 1 && BH(s.right) == h + 1 && !IsRed(s.left) && !IsRed(s.right);
    RedSiblingPath(p);
    var q := RedSibling(p).value;
    FitsTwo(q[0], q[1], p[1..], h + 1);
  }

  /** Two new ancestors, a Red one over a Black one, fit below `rest` when
      their other sides are red-black of the right height. */
  lemma FitsTwo(f0: Frame, f1: Frame, rest: Path, h: nat)
    requires f0.color == Red && f1.color == Black
    requires NoRedRed(f0.other) && Balanced(f0.other) && BH(f0.other) == h && !IsRed(f0.other)
    requires NoRedRed(f1.other) && Balanced(f1.other) && BH(f1.other) == h
    requires Fits(rest, h + 1, Black)
    ensures Fits([f0] + ([f1] + rest), h, Black)
    ensures RootBlack(rest) ==> RootBlack([f0] + ([f1] + rest))
  {
    FitsCons(f1, rest, h, Red);
    FitsCons(f0, [f1] + rest, h, Black);
    if rest != [] {
      assert ([f0] + ([f1] + rest))[|rest| + 1] == rest[|rest| - 1];
    }
  }

  /** The path case 1 builds from a Red sibling `s`: the parent, made
      Red, now has the sibling's near child as its other side, and the
      sibling, made Black, sits above it with its far child. */
  lemma RedSiblingPath(p: Path)
    requires p != [] && IsRed(p[0].other)
    requires |p| > 1 ==> p[1].other.Node?
    ensures RedSibling(p).Done?
    ensures var q, f, s := RedSibling(p).value, p[0], p[0].other;
      && q == [q[0]] + ([q[1]] + p[1..])
      && q[0] == Frame(f.dir, Red, f.key, if f.dir == Left then s.left else s.right)
      && q[1] == Frame(f.dir, Black, s.key, if f.dir == Left then s.right else s.left)
  {
    var f, s := p[0], p[0].other;
    var p' := [Frame(f.dir, Red, f.key, Node(Black, s.left, s.key, s.right))] + p[1..];
    assert p'[0].other.Node? && p'[1..] == p[1..];
    var q := RedSibling(p).value;
    assert q == RotateOnParent(p', RotCode(f.dir)).value;
    assert q[2..] == p[1..];
  }

  /** Case 1 keeps the in-order keys of the whole tree. */
  lemma RedSiblingKeys(x: Tree, p: Path)
    requires p != [] && IsRed(p[0].other)
    requires RedSibling(p).Done?
    ensures InOrder(Plug(x, RedSibling(p).value)) == InOrder(Plug(x, p))
  {
    var f, s := p[0], p[0].other;
    var p' := [Frame(f.dir, Red, f.key, Node(Black, s.left, s.key, s.right))] + p[1..];
    assert p'[0].other.Node? && p'[1..] == p[1..];
    var q := RedSibling(p).value;
    RotateOnParentEntries(x, p', RotCode(f.dir));
    EntriesInOrder(Plug(x, q), Plug(x, p'));
    assert InOrder(Attach(p'[0], x)) == InOrder(Attach(f, x));
    PlugInOrder(Attach(p'[0], x), Attach(f, x), p[1..]);
  }

  /** Case 2 hands the repair state to the parent and keeps the in-order
      keys. */
  lemma BlackSiblingCorrect(x: Tree, q: Path)
    requires DelInv(x, q) && q != [] && !IsRed(x)
    requires q[0].other.Node? && !IsRed(q[0].other)
    requires !IsRed(q[0].other.left) && !IsRed(q[0].other.right)
    ensures var s := q[0].other;
      var y := Attach(q[0].(other := Node(Red, s.left, s.key, s.right)), x);
      DelInv(y, q[1..]) && InOrder(Plug(y, q[1..])) == InOrder(Plug(x, q))
  {
    DelInvUnfold(x, q);
    var s := q[0].other;
    var y := Attach(q[0].(other := Node(Red, s.left, s.key, s.right)), x);
    assert BH(Node(Red, s.left, s.key, s.right)) == BH(x);
    if q[0].color == Red {
      FitsBlack(q[1..], BH(x) + 1, Red);
    }
    assert InOrder(y) == InOrder(Attach(q[0], x));
    PlugInOrder(y, Attach(q[0], x), q[1..]);
  }

  /** After case 3 (when it applies) the sibling is Black with a Red far
      child, both of its children red-black inside with the repaired node's
      black-height, and the same in-order keys. */
  lemma NearNephewShape(s: Tree, d: Dir, h: nat)
    requires s.Node? && s.color == Black && NoRedRed(s) && Balanced(s) && BH(s) == h + 1
    requires IsRed(s.left) || IsRed(s.right)
    ensures var s' := FarChildRed(s, d);
      && NoRedRed(s'.left) && Balanced(s'.left) && BH(s'.left) == h
      && NoRedRed(s'.right) && Balanced(s'.right) && BH(s'.right) == h
      && (if d == Left then IsRed(s'.right) else IsRed(s'.left))
  {
  }

  /** Case 4 with the repaired node `x` on the left, under a parent of
      colour `c` and key `k`: the sibling `s'` (after case 3) goes on top in
      the parent's colour, the parent goes Black above `x` and the
      sibling's near child, and the far child turns Black. The result is
      red-black inside, has the parent's black-height, and keeps the
      in-order keys. */
  lemma CaseFourLeft(x: Tree, c: Color, k: int, s': Tree, h: nat)
    requires NoRedRed(x) && Balanced(x) && BH(x) == h && !IsRed(x)
    requires s'.Node?
    requires NoRedRed(s'.left) && Balanced(s'.left) && BH(s'.left) == h
    requires NoRedRed(s'.right) && Balanced(s'.right) && BH(s'.right) == h && IsRed(s'.right)
    ensures var top := Node(c, Node(Black, x, k, s'.left), s'.key, Blacken(s'.right));
      && NoRedRed(top) && Balanced(top) && BH(top) == h + 1 + BlackCount(c)
      && InOrder(top) == InOrder(x) + [k] + InOrder(s')
  {
    var a, b := Node(Black, x, k, s'.left), Blacken(s'.right);
    CaseFourJoin(a, c, s'.key, b, h + 1);
    assert InOrder(Node(c, a, s'.key, b)) == InOrder(x) + [k] + InOrder(s');
  }

  /** Case 4 with the repaired node `x` on the right: the mirror image. */
  lemma CaseFourRight(x: Tree, c: Color, k: int, s': Tree, h: nat)
    requires NoRedRed(x) && Balanced(x) && BH(x) == h && !IsRed(x)
    requires s'.Node?
    requires NoRedRed(s'.left) && Balanced(s'.left) && BH(s'.left) == h && IsRed(s'.left)
    requires NoRedRed(s'.right) && Balanced(s'.right) && BH(s'.right) == h
    ensures var top := Node(c, Blacken(s'.left), s'.key, Node(Black, s'.right, k, x));
      && NoRedRed(top) && Balanced(top) && BH(top) == h + 1 + BlackCount(c)
      && InOrder(top) == InOrder(s') + [k] + InOrder(x)
  {
    var a, b := Blacken(s'.left), Node(Black, s'.right, k, x);
    CaseFourJoin(a, c, s'.key, b, h + 1);
    assert InOrder(Node(c, a, s'.key, b)) == InOrder(s') + [k] + InOrder(x);
  }

  /** Two Black red-black subtrees of the same black-height joined under a
      node of any colour. */
  lemma CaseFourJoin(a: Tree, c: Color, k: int, b: Tree, h: nat)
    requires NoRedRed(a) && Balanced(a) && BH(a) == h && !IsRed(a)
    requires NoRedRed(b) && Balanced(b) && BH(b) == h && !IsRed(b)
    ensures NoRedRed(Node(c, a, k, b)) && Balanced(Node(c, a, k, b)) && BH(Node(c, a, k, b)) == h + BlackCount(c)
  {
  }

  /** The subtree cases 3 and 4 leave in the parent's place. */
  function FarNephewTop(x: Tree, q: Path): Tree
    requires q != [] && q[0].other.Node?
    requires IsRed(q[0].other.left) || IsRed(q[0].other.right)
  {
    var f := q[0];
    var s' := FarChildRed(q[0].other, f.dir);
    if f.dir == Left then Node(f.color, Node(Black, x, f.key, s'.left), s'.key, Blacken(s'.right))
    else Node(f.color, Blacken(s'.left), s'.key, Node(Black, s'.right, f.key, x))
  }

  /** Unless the rotation unwraps an absent link, cases 3 and 4 plug that
      subtree into the grandparent. */
  lemma FarNephewPlug(x: Tree, q: Path)
    requires q != [] && q[0].other.Node?
    requires IsRed(q[0].other.left) || IsRed(q[0].other.right)
    ensures FarNephew(x, q) ==
      if |q| > 1 && q[1].dir == Right && q[1].other == Nil then Fatal
      else Done(Plug(FarNephewTop(x, q), q[1..]))
  {
    var f := q[0];
    var s' := FarChildRed(q[0].other, f.dir);
    var sibling :=
      if f.dir == Left then Node(f.color, s'.left, s'.key, Blacken(s'.right))
      else Node(f.color, Blacken(s'.left), s'.key, s'.right);
    var p' := [Frame(f.dir, Black, f.key, sibling)] + q[1..];
    assert p'[1..] == q[1..];
    var r := RotateOnParent(p', RotCode(f.dir));
    if r.Done? {
      var q' := r.value;
      assert q'[1..][1..] == q[1..];
      assert Plug(x, q') == Plug(Attach(q'[1], Attach(q'[0], x)), q[1..]);
      assert Attach(q'[1], Attach(q'[0], x)) == FarNephewTop(x, q);
    }
  }

  /** Cases 3 and 4 end the repair with a red-black tree holding the same
      in-order keys. */
  lemma FarNephewCorrect(x: Tree, q: Path)
    requires DelInv(x, q) && q != [] && !IsRed(x)
    requires q[0].other.Node? && !IsRed(q[0].other)
    requires IsRed(q[0].other.left) || IsRed(q[0].other.right)
    ensures FarNephew(x, q).Done?
    ensures RedBlack(FarNephew(x, q).value)
    ensures InOrder(FarNephew(x, q).value) == InOrder(Plug(x, q))
  {
    DelInvUnfold(x, q);
    var h := BH(x);
    var top := FarNephewTop(x, q);
    FarNephewTopRB(x, q, h);
    FarNephewPlug(x, q);
    assert FarNephew(x, q) == Done(Plug(top, q[1..]));
    FarNephewFinish(x, q, top, h);
  }

  /** The subtree cases 3 and 4 leave in the parent's place is red-black,
      has the parent's colour and black-height and the parent's in-order
      keys. */
  lemma FarNephewTopRB(x: Tree, q: Path, h: nat)
    requires NoRedRed(x) && Balanced(x) && BH(x) == h && !IsRed(x)
    requires q != [] && q[0].other.Node? && q[0].other.color == Black
    requires NoRedRed(q[0].other) && Balanced(q[0].other) && BH(q[0].other) == h + 1
    requires IsRed(q[0].other.left) || IsRed(q[0].other.right)
    ensures var top := FarNephewTop(x, q);
      && top.Node? && top.color == q[0].color
      && NoRedRed(top) && Balanced(top) && BH(top) == h + 1 + BlackCount(q[0].color)
      && InOrder(top) == InOrder(Attach(q[0], x))
  {
    var f, s := q[0], q[0].other;
    NearNephewShape(s, f.dir, h);
    var s' := FarChildRed(s, f.dir);
    if f.dir == Left {
      CaseFourLeft(x, f.color, f.key, s', h);
    } else {
      CaseFourRight(x, f.color, f.key, s', h);
    }
  }

  /** The last step of cases 3 and 4: the new top, red-black with the
      parent's colour and black-height and the parent's in-order keys,
      completes a red-black tree with the same keys. */
  lemma FarNephewFinish(x: Tree, q: Path, top: Tree, h: nat)
    requires q != [] && BH(x) == h
    requires Fits(q[1..], h + 1 + BlackCount(q[0].color), q[0].color)
    requires RootBlack(q[1..]) && (|q| == 1 ==> q[0].color == Black)
    requires top.Node? && top.color == q[0].color
    requires NoRedRed(top) && Balanced(top) && BH(top) == h + 1 + BlackCount(q[0].color)
    requires InOrder(top) == InOrder(Attach(q[0], x))
    ensures RedBlack(Plug(top, q[1..]))
    ensures InOrder(Plug(top, q[1..])) == InOrder(Plug(x, q))
  {
    PlugInOrder(top, Attach(q[0], x), q[1..]);
    PlugRedBlack(top, q[1..]);
  }

  /** The repair never ends the process from a ready state, leaves a
      red-black tree, and keeps the in-order key sequence. */
  lemma {:induction false} DeleteFixCorrect(x: Tree, p: Path, deletedColor: Color, lor: int)
    requires RepairReady(x, p, deletedColor, lor)
    ensures DeleteFix(x, p, deletedColor, lor).Done?
    ensures RedBlack(DeleteFix(x, p, deletedColor, lor).value)
    ensures InOrder(DeleteFix(x, p, deletedColor, lor).value) == InOrder(Plug(x, p))
    decreases 2 * |p| + (if IsRed(x) then 0 else 1), 1
  {
    if Plug(x, p) == Nil {
    } else if deletedColor == Red {
    } else if p == [] || IsRed(x) {
      assert InOrder(Blacken(x)) == InOrder(x);
      PlugInOrder(Blacken(x), x, p);
      PlugRedBlack(Blacken(x), p);
    } else {
      DelInvUnfold(x, p);
      if IsRed(p[0].other) {
        RedSiblingCorrect(x, p);
        var q := RedSibling(p).value;
        assert DeleteFix(x, p, deletedColor, lor) == SiblingCases(x, q, deletedColor, lor);
        SiblingCasesCorrect(x, q, deletedColor, lor);
      } else {
        assert DeleteFix(x, p, deletedColor, lor) == SiblingCases(x, p, deletedColor, lor);
        SiblingCasesCorrect(x, p, deletedColor, lor);
      }
    }
  }

  /** The same for the sibling cases, entered with a non-Red sibling. */
  lemma {:induction false} SiblingCasesCorrect(x: Tree, q: Path, deletedColor: Color, lor: int)
    requires deletedColor == Black && DelInv(x, q) && q != [] && !IsRed(x) && !IsRed(q[0].other)
    ensures SiblingCases(x, q, deletedColor, lor).Done?
    ensures RedBlack(SiblingCases(x, q, deletedColor, lor).value)
    ensures InOrder(SiblingCases(x, q, deletedColor, lor).value) == InOrder(Plug(x, q))
    decreases 2 * |q| - 1 + (if q[0].color == Red then 0 else 1), 0
  {
    DelInvUnfold(x, q);
    var s := q[0].other;
    if !IsRed(s.left) && !IsRed(s.right) {
      var y := Attach(q[0].(other := Node(Red, s.left, s.key, s.right)), x);
      BlackSiblingCorrect(x, q);
      DeleteFixCorrect(y, q[1..], deletedColor, lor);
    } else {
      FarNephewCorrect(x, q);
    }
  }

  // ---------------------------------------------------------------------
  // The wrapper

  /** `delete`: the search-tree removal from the root, then the repair at
      the recorded site; an absent key (nothing recorded) ends the
      process. */
  function Delete(t: Tree, item: int, successor: int): (r: Outcome<Tree>)
    ensures item !in Keys(t) ==> r == Fatal
  {
    var (t', site) := DeleteBst(t, item, successor, 0);
    match site
    case None => Fatal
    case Some(s) => DeleteFix(s.node, s.path, s.deletedColor, s.side)
  }

  /** Deletion from a valid tree, under either replacement policy: an
      absent key ends the process; otherwise the result is a valid
      red-black search tree holding exactly the old keys but `item`. */
  lemma DeleteCorrect(t: Tree, item: int, successor: int)
    requires Valid(t)
    ensures item !in Keys(t) ==> Delete(t, item, successor) == Fatal
    ensures item in Keys(t) ==> Delete(t, item, successor).Done?
    ensures item in Keys(t) ==>
      Valid(Delete(t, item, successor).value) && Keys(Delete(t, item, successor).value) == Keys(t) - {item}
  {
    DeleteBstSpec(t, item, successor, 0);
    if item in Keys(t) {
      DeleteBstRB(t, item, successor, 0, []);
      var r := DeleteBst(t, item, successor, 0);
      var t', s := r.0, r.1.value;
      assert s.path + [] == s.path;
      assert Delete(t, item, successor) == DeleteFix(s.node, s.path, s.deletedColor, s.side);
      assert RepairReady(s.node, s.path, s.deletedColor, s.side);
      DeleteFixCorrect(s.node, s.path, s.deletedColor, s.side);
      var u := DeleteFix(s.node, s.path, s.deletedColor, s.side).value;
      assert InOrder(u) == InOrder(t');
      KeysInOrder(u);
      KeysInOrder(t');
      forall y ensures y in Keys(u) <==> y in Keys(t') {
        assert y in InOrder(u) <==> y in InOrder(t');
      }
    }
  }
}
