/** The rotation of the deletion repair on linked nodes: `rotate_on_parent`
    (RBTree.rs:577-631), proved to do to the ancestors of the repaired node
    what `Repair.RotateOnParent` does to its path. */
module LinkedRepair {
  import opened Trees
  import opened LinkedTree
  import opened LinkedRotation
  import Repair

  /** The ancestors of the repaired node `f` before the rotation: the
      parent `P` with `f` on side `Left` when `lor != 0` (and `Right`
      otherwise) and the sibling `S` with its children `sl`, `sr` on the
      other side, then `rest`. */
  function Before(P: Node, S: Node, sl: Shape, sr: Shape, rest: Trail, lor: int): (tr: Trail)
    ensures tr.Below? && tr.lk.node == P && tr.lk.other == Cell(S, sl, sr) && tr.rest == rest
    ensures tr.lk.dir == if lor != 0 then Left else Right
  {
    Below(Link(if lor != 0 then Left else Right, P, Cell(S, sl, sr)), rest)
  }

  /** The ancestors after the rotation: `P` moved down to the side of `f`,
      holding the sibling's near child, and `S` above it holding its far
      child. */
  function After(P: Node, S: Node, sl: Shape, sr: Shape, rest: Trail, lor: int): (tr: Trail)
    ensures tr.Below? && tr.lk.node == P && tr.rest.Below? && tr.rest.lk.node == S && tr.rest.rest == rest
    ensures tr.lk.dir == tr.rest.lk.dir == if lor != 0 then Left else Right
  {
    if lor != 0 then Below(Link(Left, P, sl), Below(Link(Left, S, sr), rest))
    else Below(Link(Right, P, sr), Below(Link(Right, S, sl), rest))
  }

  /** `rotate_on_parent` (RBTree.rs:577-631) above the repaired node `n`
      (which may be a stand-in outside the tree), whose back-link names the
      parent `P`, and its sibling `S`: `S` takes `P`'s place under the
      grandparent or as the root, its near child moves under `P`, and `P`
      goes below `S`. A grandparent whose left link is absent has its left
      link unwrapped and ends the process, exactly as `Repair.RotateOnParent`
      says; otherwise the new ancestors of the repaired subtree `f` are
      linked and stand for the path `Repair.RotateOnParent` returns. */
  method RotateOnParent(root: Node, n: Node, S: Node, lor: int, ghost P: Node, ghost f: Shape, ghost sl: Shape, ghost sr: Shape, ghost rest: Trail, ghost p: Path)
    returns (newRoot: Node?, fatal: bool)
    requires n.parent == P
    requires Linked(Fill(f, Before(P, S, sl, sr, rest, lor)), null) && root == Top(Fill(f, Before(P, S, sl, sr, rest, lor)))
    requires p == AbsTrail(Before(P, S, sl, sr, rest, lor))
    modifies Nodes(Fill(f, Before(P, S, sl, sr, rest, lor)))`left, Nodes(Fill(f, Before(P, S, sl, sr, rest, lor)))`right
    modifies Nodes(Fill(f, Before(P, S, sl, sr, rest, lor)))`parent
    ensures p != [] && p[0].other.Node? && p[0].dir == (if lor != 0 then Left else Right)
    ensures fatal <==> Repair.RotateOnParent(p, lor).Fatal?
    ensures !fatal ==>
      && Linked(Fill(f, After(P, S, sl, sr, rest, lor)), null)
      && newRoot == Top(Fill(f, After(P, S, sl, sr, rest, lor)))
      && AbsTrail(After(P, S, sl, sr, rest, lor)) == Repair.RotateOnParent(p, lor).value
  {
    RotateOnParentPath(P, S, sl, sr, rest, lor, p);
    newRoot, fatal := Relink(root, n, S, lor, P, f, sl, sr, rest);
    TrailAround(P, S, sl, sr, rest, lor);
  }

  /** The pointer work of `rotate_on_parent`: it gives up exactly when the
      grandparent's left link is absent, and otherwise relinks `P` and `S`
      leaving the colours and keys of all nodes and the values of `sl`, `sr`
      and the ancestors above `P` as they were. */
  method Relink(root: Node, n: Node, S: Node, lor: int, ghost P: Node, ghost f: Shape, ghost sl: Shape, ghost sr: Shape, ghost rest: Trail)
    returns (newRoot: Node?, fatal: bool)
    requires n.parent == P
    requires Linked(Fill(f, Before(P, S, sl, sr, rest, lor)), null) && root == Top(Fill(f, Before(P, S, sl, sr, rest, lor)))
    modifies Nodes(Fill(f, Before(P, S, sl, sr, rest, lor)))`left, Nodes(Fill(f, Before(P, S, sl, sr, rest, lor)))`right
    modifies Nodes(Fill(f, Before(P, S, sl, sr, rest, lor)))`parent
    ensures fatal <==> rest.Below? && rest.lk.dir == Right && rest.lk.other == Empty
    ensures !fatal ==>
      && Linked(Fill(f, After(P, S, sl, sr, rest, lor)), null)
      && newRoot == Top(Fill(f, After(P, S, sl, sr, rest, lor)))
      && P.color == old(P.color) && P.key == old(P.key) && S.color == old(S.color) && S.key == old(S.key)
      && Abs(sl) == old(Abs(sl)) && Abs(sr) == old(Abs(sr)) && AbsTrail(rest) == old(AbsTrail(rest))
  {
    ghost var tr := Before(P, S, sl, sr, rest, lor);
    ghost var pre := Hang(tr.lk, f);
    ghost var post := if lor != 0 then Cell(S, Cell(P, f, sl), sr) else Cell(S, sl, Cell(P, sr, f));
    assert Fill(f, tr) == Fill(pre, rest);
    assert Fill(f, After(P, S, sl, sr, rest, lor)) == Fill(post, rest);
    OpenFill(pre, rest);
    FillNodes(pre, rest);
    assert Nodes(Cell(S, sl, sr)) <= Nodes(pre) && P in Nodes(pre) && S in Nodes(pre);
    assert sl.Cell? ==> sl.node in Nodes(sl);
    assert sr.Cell? ==> sr.node in Nodes(sr);
    NodesAllocated(sl);
    NodesAllocated(sr);
    TrailAllocated(rest);
    var parent := n.parent;
    var grandparent := parent.parent;
    if grandparent != null {
      UpSide(pre, rest);
      if grandparent.left == null {
        return root, true;
      }
    }
    var d := if grandparent != null && grandparent.left == parent then Left else Right;
    if lor != 0 {
      RotateLeftAt(parent, S, d, f, sl, sr, rest);
    } else {
      RotateRightAt(parent, S, d, sl, sr, f, rest);
    }
    newRoot, fatal := if grandparent == null then S else root, false;
    FillTopSame(pre, post, rest);
  }

  /** The path of the ancestors as `Repair.RotateOnParent` sees it: it
      fails exactly on a grandparent link of side `Right` with nothing on
      the other side, and otherwise returns the path of `After`. */
  lemma RotateOnParentPath(P: Node, S: Node, sl: Shape, sr: Shape, rest: Trail, lor: int, p: Path)
    requires p == AbsTrail(Before(P, S, sl, sr, rest, lor))
    ensures p != [] && p[0].other.Node? && p[0].dir == (if lor != 0 then Left else Right)
    ensures Repair.RotateOnParent(p, lor).Fatal? <==> rest.Below? && rest.lk.dir == Right && rest.lk.other == Empty
    ensures Repair.RotateOnParent(p, lor).Done? ==>
      Repair.RotateOnParent(p, lor).value ==
        if lor != 0 then [Frame(Left, P.color, P.key, Abs(sl)), Frame(Left, S.color, S.key, Abs(sr))] + AbsTrail(rest)
        else [Frame(Right, P.color, P.key, Abs(sr)), Frame(Right, S.color, S.key, Abs(sl))] + AbsTrail(rest)
  {
    TrailAround(P, S, sl, sr, rest, lor);
    RotateOnParentValue(p, lor, P.color, P.key, S.color, S.key, Abs(sl), Abs(sr), AbsTrail(rest));
    if rest.Below? {
      assert p[1] == FrameOf(rest.lk);
    }
  }

  /** The value paths of the ancestors before and after the rotation. */
  lemma TrailAround(P: Node, S: Node, sl: Shape, sr: Shape, rest: Trail, lor: int)
    ensures var d := if lor != 0 then Left else Right;
      AbsTrail(Before(P, S, sl, sr, rest, lor)) == [Frame(d, P.color, P.key, Node(S.color, Abs(sl), S.key, Abs(sr)))] + AbsTrail(rest)
    ensures AbsTrail(After(P, S, sl, sr, rest, lor)) ==
      if lor != 0 then [Frame(Left, P.color, P.key, Abs(sl)), Frame(Left, S.color, S.key, Abs(sr))] + AbsTrail(rest)
      else [Frame(Right, P.color, P.key, Abs(sr)), Frame(Right, S.color, S.key, Abs(sl))] + AbsTrail(rest)
  {
  }

  /** `Repair.RotateOnParent` on a path whose parent frame holds a sibling
      with key `sk`, colour `sc` and children `vl`, `vr`. */
  lemma RotateOnParentValue(p: Path, lor: int, pc: Color, pk: int, sc: Color, sk: int, vl: Tree, vr: Tree, pr: Path)
    requires p == [Frame(if lor != 0 then Left else Right, pc, pk, Node(sc, vl, sk, vr))] + pr
    ensures Repair.RotateOnParent(p, lor).Done? ==>
      Repair.RotateOnParent(p, lor).value ==
        if lor != 0 then [Frame(Left, pc, pk, vl), Frame(Left, sc, sk, vr)] + pr
        else [Frame(Right, pc, pk, vr), Frame(Right, sc, sk, vl)] + pr
  {
    assert p[1..] == pr;
  }
}
