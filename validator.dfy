/** The validator `check_red_black_tree` (RBTree.rs:58-101). */
module Validator {
  import opened Trees

  /** The black-height of `t`, or -1 when `t` breaks a red-black invariant.
      `parentless` says whether the node at the top of `t` has no parent:
      true for the root of a whole tree, false for every subtree the
      recursion visits below it. A -1 from either child is passed up at
      once. */
  function Check(t: Tree, parentless: bool): (h: int)
    ensures h == -1 || h >= 0
    ensures h >= 0 <==> NoRedRed(t) && Balanced(t) && !(parentless && IsRed(t))
    ensures h >= 0 ==> h == BH(t)
  {
    match t
    case Nil => 0
    case Node(c, l, _, r) =>
      if parentless && c == Red then -1
      else
        var leftRoute := Check(l, false);
        if leftRoute == -1 then -1
        else
          var rightRoute := Check(r, false);
          if rightRoute == -1 then -1
          else if c == Red && (IsRed(l) || IsRed(r)) then -1
          else if leftRoute != rightRoute then -1
          else leftRoute + BlackCount(c)
  }

  /** On a whole tree the validator succeeds exactly on red-black trees,
      and then returns their black-height. */
  lemma CheckWholeTree(t: Tree)
    ensures Check(t, true) >= 0 <==> RedBlack(t)
    ensures RedBlack(t) ==> Check(t, true) == BH(t)
    ensures !RedBlack(t) ==> Check(t, true) == -1
  {
  }

  /** Each of the three failures the validator looks for makes it return -1:
      a parentless Red node, a Red node with a Red child, and children of
      different black-heights. */
  lemma CheckFailures(c: Color, l: Tree, k: int, r: Tree, parentless: bool)
    ensures parentless && c == Red ==> Check(Node(c, l, k, r), parentless) == -1
    ensures c == Red && (IsRed(l) || IsRed(r)) ==> Check(Node(c, l, k, r), parentless) == -1
    ensures Check(l, false) >= 0 && Check(r, false) >= 0 && Check(l, false) != Check(r, false) ==>
      Check(Node(c, l, k, r), parentless) == -1
  {
  }
}
