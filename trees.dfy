/** Red-black trees over integer keys: the node/colour model of RBTree.rs,
    the red-black and search-tree invariants, and a zipper (a focus subtree
    together with the path of its ancestors) that stands for the parent
    back-links the repair procedures climb. */
module Trees {

  datatype Color = Red | Black

  /** A subtree; Nil is an absent child. */
  datatype Tree = Nil | Node(color: Color, left: Tree, key: int, right: Tree)

  datatype Option<T> = None | Some(value: T)

  /** Fatal stands for the source's `exit(1)` and for an `unwrap` of an
      absent link, both of which end the process. */
  datatype Outcome<T> = Done(value: T) | Fatal

  /** Which child slot of its parent a node occupies. */
  datatype Dir = Left | Right

  /** One ancestor of the focus: the side on which the path below hangs,
      the ancestor's colour and key, and its other child. */
  datatype Frame = Frame(dir: Dir, color: Color, key: int, other: Tree)

  /** Ancestors of the focus, nearest first: p[0] is the parent and the last
      frame is the root of the whole tree. */
  type Path = seq<Frame>

  // ---------------------------------------------------------------------
  // Colours and black-heights

  /** An absent child counts as Black. */
  function ColorOf(t: Tree): Color {
    if t.Node? then t.color else Black
  }

  predicate IsRed(t: Tree) {
    t.Node? && t.color == Red
  }

  /** A Black leaf and a Red leaf with key `k`, for writing out example
      trees. */
  function B(k: int): Tree { Node(Black, Nil, k, Nil) }
  function R(k: int): Tree { Node(Red, Nil, k, Nil) }

  function Blacken(t: Tree): (r: Tree)
    ensures !IsRed(r)
  {
    if t.Node? then Node(Black, t.left, t.key, t.right) else t
  }

  function BlackCount(c: Color): nat {
    if c == Black then 1 else 0
  }

  /** Number of Black nodes on the leftmost path, the node itself included
      (the quantity `check_red_black_tree` returns). */
  function BH(t: Tree): nat {
    match t
    case Nil => 0
    case Node(c, l, _, _) => BH(l) + BlackCount(c)
  }

  /** Every path from a node to an absent child meets the same number of
      Black nodes. */
  predicate Balanced(t: Tree) {
    match t
    case Nil => true
    case Node(_, l, _, r) => Balanced(l) && Balanced(r) && BH(l) == BH(r)
  }

  /** No Red node has a Red child. */
  predicate NoRedRed(t: Tree) {
    match t
    case Nil => true
    case Node(c, l, _, r) =>
      NoRedRed(l) && NoRedRed(r) && (c == Red ==> !IsRed(l) && !IsRed(r))
  }

  /** The three red-black invariants of a whole tree: Black root, no
      Red-Red edge, equal black-heights. */
  predicate RedBlack(t: Tree) {
    NoRedRed(t) && Balanced(t) && !IsRed(t)
  }

  // ---------------------------------------------------------------------
  // Keys and search-tree order

  function InOrder(t: Tree): seq<int> {
    match t
    case Nil => []
    case Node(_, l, k, r) => InOrder(l) + [k] + InOrder(r)
  }

  /** The in-order sequence of (key, colour) pairs: what a rotation keeps. */
  function Entries(t: Tree): seq<(int, Color)> {
    match t
    case Nil => []
    case Node(c, l, k, r) => Entries(l) + [(k, c)] + Entries(r)
  }

  function Keys(t: Tree): set<int> {
    match t
    case Nil => {}
    case Node(_, l, k, r) => Keys(l) + {k} + Keys(r)
  }

  predicate Sorted(s: seq<int>) {
    forall i, j :: 0 <= i < j < |s| ==> s[i] < s[j]
  }

  /** Binary-search-tree order: the in-order keys strictly increase. */
  predicate Bst(t: Tree) {
    Sorted(InOrder(t))
  }

  /** What every public operation must leave behind. */
  predicate Valid(t: Tree) {
    Bst(t) && RedBlack(t)
  }

  lemma {:induction false} KeysInOrder(t: Tree)
    ensures forall x :: x in Keys(t) <==> x in InOrder(t)
  {
    match t
    case Nil =>
    case Node(_, l, _, r) => KeysInOrder(l); KeysInOrder(r);
  }

  lemma {:induction false} EntriesKeys(t: Tree)
    ensures |Entries(t)| == |InOrder(t)|
    ensures forall i :: 0 <= i < |Entries(t)| ==> Entries(t)[i].0 == InOrder(t)[i]
  {
    match t
    case Nil =>
    case Node(_, l, _, r) => EntriesKeys(l); EntriesKeys(r);
  }

  /** A sequence is strictly increasing when each element exceeds the one
      before it. */
  lemma {:induction false} SortedFromNeighbours(s: seq<int>)
    requires forall i :: 0 < i < |s| ==> s[i - 1] < s[i]
    ensures Sorted(s)
    decreases |s|
  {
    if |s| > 1 {
      SortedFromNeighbours(s[1..]);
      forall i, j | 0 <= i < j < |s| ensures s[i] < s[j] {
        if i > 0 {
          assert s[i] == s[1..][i - 1] && s[j] == s[1..][j - 1];
        } else if j > 1 {
          assert s[1] == s[1..][0] && s[j] == s[1..][j - 1];
        }
      }
    }
  }

  /** A sequence with `k` in the middle is sorted exactly when both sides
      are and lie on their own side of `k`. */
  lemma SortedConcat(a: seq<int>, k: int, b: seq<int>)
    ensures Sorted(a + [k] + b) <==>
      Sorted(a) && Sorted(b) && (forall x :: x in a ==> x < k) && (forall x :: x in b ==> k < x)
  {
    if Sorted(a) && Sorted(b) && (forall x :: x in a ==> x < k) && (forall x :: x in b ==> k < x) {
      SortedJoin(a, k, b);
    }
    if Sorted(a + [k] + b) {
      SortedSplit(a, k, b);
    }
  }

  /** Two sorted sequences on either side of `k` join into one. */
  lemma SortedJoin(a: seq<int>, k: int, b: seq<int>)
    requires Sorted(a) && Sorted(b) && (forall x :: x in a ==> x < k) && (forall x :: x in b ==> k < x)
    ensures Sorted(a + [k] + b)
  {
    var s := a + [k] + b;
    forall i, j | 0 <= i < j < |s| ensures s[i] < s[j] {
      if j < |a| {
        assert s[i] == a[i] && s[j] == a[j];
      } else if j == |a| {
        assert s[i] == a[i] && a[i] in a;
      } else if i > |a| {
        assert s[i] == b[i - |a| - 1] && s[j] == b[j - |a| - 1];
      } else if i == |a| {
        assert s[j] == b[j - |a| - 1] && s[j] in b;
      } else {
        assert s[i] == a[i] && a[i] in a;
        assert s[j] == b[j - |a| - 1] && s[j] in b;
      }
    }
  }

  /** A sorted sequence splits at `k` into two sorted sides. */
  lemma SortedSplit(a: seq<int>, k: int, b: seq<int>)
    requires Sorted(a + [k] + b)
    ensures Sorted(a) && Sorted(b) && (forall x :: x in a ==> x < k) && (forall x :: x in b ==> k < x)
  {
    var s := a + [k] + b;
    assert a == s[..|a|] && b == s[|a| + 1..];
    forall x | x in a ensures x < k {
      var i :| 0 <= i < |a| && a[i] == x;
      assert s[i] == x && s[|a|] == k;
    }
    forall x | x in b ensures k < x {
      var i :| 0 <= i < |b| && b[i] == x;
      assert s[|a| + 1 + i] == x && s[|a|] == k;
    }
  }

  /** Search-tree order of a node, stated on its subtrees' key sets. */
  lemma BstNode(c: Color, l: Tree, k: int, r: Tree)
    ensures Bst(Node(c, l, k, r)) ==>
      Bst(l) && Bst(r) && (forall x :: x in Keys(l) ==> x < k) && (forall x :: x in Keys(r) ==> k < x)
    ensures Bst(l) && Bst(r) && (forall x :: x in Keys(l) ==> x < k) && (forall x :: x in Keys(r) ==> k < x) ==>
      Bst(Node(c, l, k, r))
  {
    var a, b := InOrder(l), InOrder(r);
    KeysInOrder(l);
    KeysInOrder(r);
    SortedConcat(a, k, b);
    assert InOrder(Node(c, l, k, r)) == a + [k] + b;
    if Bst(Node(c, l, k, r)) {
      forall x | x in Keys(l) ensures x < k {
        assert x in a;
      }
      forall x | x in Keys(r) ensures k < x {
        assert x in b;
      }
    }
    if Bst(l) && Bst(r) && (forall x :: x in Keys(l) ==> x < k) && (forall x :: x in Keys(r) ==> k < x) {
      forall x | x in a ensures x < k {
        assert x in Keys(l);
      }
      forall x | x in b ensures k < x {
        assert x in Keys(r);
      }
    }
  }

  /** Two search trees with the same keys list them in the same order. */
  lemma {:induction false} SortedSetUnique(a: seq<int>, b: seq<int>)
    requires Sorted(a) && Sorted(b)
    requires forall x :: x in a <==> x in b
    ensures a == b
    decreases |a|
  {
    if a != [] {
      assert a[0] in a;
    }
    if b != [] {
      assert b[0] in b;
    }
    if a != [] {
      // the first element of each is the least element of the common set
      var j :| 0 <= j < |b| && b[j] == a[0];
      var i :| 0 <= i < |a| && a[i] == b[0];
      forall x ensures x in a[1..] <==> x in b[1..] {
        if x in a[1..] {
          var i :| 1 <= i < |a| && a[i] == x;
          assert a[0] < x;
          assert x in b;
        }
        if x in b[1..] {
          var i :| 1 <= i < |b| && b[i] == x;
          assert b[0] < x;
          assert x in a;
        }
      }
      SortedSetUnique(a[1..], b[1..]);
      assert a == [a[0]] + a[1..] && b == [b[0]] + b[1..];
    }
  }

  /** Two search trees with the same key set have the same in-order
      sequence. */
  lemma SameKeysSameInOrder(t: Tree, u: Tree)
    requires Bst(t) && Bst(u) && Keys(t) == Keys(u)
    ensures InOrder(t) == InOrder(u)
  {
    KeysInOrder(t);
    KeysInOrder(u);
    SortedSetUnique(InOrder(t), InOrder(u));
  }

  // ---------------------------------------------------------------------
  // Rotations

  /** The right child moves up into the node's place; the node becomes its
      left child and takes over its former left subtree. */
  function RotateLeft(t: Tree): (r: Tree)
    requires t.Node? && t.right.Node?
    ensures r.Node? && r.left.Node?
    ensures Entries(r) == Entries(t)
  {
    Node(t.right.color, Node(t.color, t.left, t.key, t.right.left), t.right.key, t.right.right)
  }

  /** The mirror of RotateLeft. */
  function RotateRight(t: Tree): (r: Tree)
    requires t.Node? && t.left.Node?
    ensures r.Node? && r.right.Node?
    ensures Entries(r) == Entries(t)
  {
    Node(t.left.color, t.left.left, t.left.key, Node(t.color, t.left.right, t.key, t.right))
  }

  lemma EntriesInOrder(t: Tree, u: Tree)
    requires Entries(t) == Entries(u)
    ensures InOrder(t) == InOrder(u)
  {
    EntriesKeys(t);
    EntriesKeys(u);
  }

  // ---------------------------------------------------------------------
  // The zipper

  /** The ancestor described by `f`, with `t` hung on its `f.dir` side. */
  function Attach(f: Frame, t: Tree): (r: Tree)
    ensures r.Node? && r.color == f.color && r.key == f.key
  {
    if f.dir == Left then Node(f.color, t, f.key, f.other) else Node(f.color, f.other, f.key, t)
  }

  /** The whole tree: the focus `t` rebuilt into its ancestors. It is
      empty only when the focus is empty and has no ancestors. */
  function Plug(t: Tree, p: Path): (r: Tree)
    ensures r == Nil <==> t == Nil && p == []
    decreases |p|
  {
    if p == [] then t else Plug(Attach(p[0], t), p[1..])
  }

  /** Side code of a child slot as the source writes it: 1 left, 2 right. */
  function SideCode(d: Dir): int {
    if d == Left then 1 else 2
  }

  lemma {:induction false} PlugAppend(t: Tree, p: Path, f: Frame)
    ensures Plug(t, p + [f]) == Attach(f, Plug(t, p))
    decreases |p|
  {
    if p == [] {
      assert Plug(t, [f]) == Plug(Attach(f, t), []);
    } else {
      assert (p + [f])[0] == p[0] && (p + [f])[1..] == p[1..] + [f];
      PlugAppend(Attach(p[0], t), p[1..], f);
    }
  }

  lemma {:induction false} PlugConcat(t: Tree, p: Path, q: Path)
    ensures Plug(t, p + q) == Plug(Plug(t, p), q)
    decreases |p|
  {
    if p == [] {
      assert p + q == q;
    } else {
      assert (p + q)[0] == p[0] && (p + q)[1..] == p[1..] + q;
      PlugConcat(Attach(p[0], t), p[1..], q);
    }
  }

  /** Replacing the focus by a subtree with the same entries keeps the
      entries of the whole tree. */
  lemma {:induction false} PlugEntries(a: Tree, b: Tree, p: Path)
    requires Entries(a) == Entries(b)
    ensures Entries(Plug(a, p)) == Entries(Plug(b, p))
    decreases |p|
  {
    if p != [] {
      PlugEntries(Attach(p[0], a), Attach(p[0], b), p[1..]);
    }
  }

  /** Replacing the focus by a subtree with the same in-order keys keeps the
      in-order keys of the whole tree. */
  lemma {:induction false} PlugInOrder(a: Tree, b: Tree, p: Path)
    requires InOrder(a) == InOrder(b)
    ensures InOrder(Plug(a, p)) == InOrder(Plug(b, p))
    decreases |p|
  {
    if p != [] {
      PlugInOrder(Attach(p[0], a), Attach(p[0], b), p[1..]);
    }
  }

  /** The colour of the whole tree's root. */
  lemma {:induction false} PlugRoot(t: Tree, p: Path)
    ensures IsRed(Plug(t, p)) <==> if p == [] then IsRed(t) else p[|p| - 1].color == Red
    decreases |p|
  {
    if p != [] {
      PlugRoot(Attach(p[0], t), p[1..]);
    }
  }

  /** The root of the whole tree is Black, unless the focus is the root. */
  predicate RootBlack(p: Path) {
    p == [] || p[|p| - 1].color == Black
  }

  /** The ancestors in `p` accept, below them, a focus of black-height `h`
      and colour `c` without any Red-Red edge or black-height mismatch. */
  predicate Fits(p: Path, h: nat, c: Color)
    decreases |p|
  {
    p == [] ||
    (NoRedRed(p[0].other) && Balanced(p[0].other) && BH(p[0].other) == h &&
     (p[0].color == Red ==> c == Black && !IsRed(p[0].other)) &&
     Fits(p[1..], h + BlackCount(p[0].color), p[0].color))
  }

  /** A Black focus is accepted wherever a Red one is. */
  lemma FitsBlack(p: Path, h: nat, c: Color)
    requires Fits(p, h, c)
    ensures Fits(p, h, Black)
  {
  }

  /** Unfolding one frame of Fits at the head of a path. */
  lemma FitsCons(f: Frame, p: Path, h: nat, c: Color)
    ensures Fits([f] + p, h, c) <==>
      NoRedRed(f.other) && Balanced(f.other) && BH(f.other) == h &&
      (f.color == Red ==> c == Black && !IsRed(f.other)) &&
      Fits(p, h + BlackCount(f.color), f.color)
  {
    assert ([f] + p)[0] == f && ([f] + p)[1..] == p;
  }

  /** The two red-black invariants that hold below the root hold of the
      whole tree exactly when they hold of the focus and the ancestors
      accept it. */
  lemma {:induction false} PlugRB(t: Tree, p: Path)
    ensures NoRedRed(Plug(t, p)) && Balanced(Plug(t, p)) <==>
      NoRedRed(t) && Balanced(t) && Fits(p, BH(t), ColorOf(t))
    decreases |p|
  {
    if p != [] {
      PlugRB(Attach(p[0], t), p[1..]);
    }
  }

  /** A whole tree is red-black when its focus fits and its root is Black. */
  lemma PlugRedBlack(t: Tree, p: Path)
    requires NoRedRed(t) && Balanced(t) && Fits(p, BH(t), ColorOf(t))
    requires if p == [] then !IsRed(t) else RootBlack(p)
    ensures RedBlack(Plug(t, p))
  {
    PlugRB(t, p);
    PlugRoot(t, p);
  }

  /** Conversely, every position of a red-black tree fits its ancestors. */
  lemma PlugRedBlackInv(t: Tree, p: Path)
    requires RedBlack(Plug(t, p))
    ensures NoRedRed(t) && Balanced(t) && Fits(p, BH(t), ColorOf(t)) && RootBlack(p)
  {
    PlugRB(t, p);
    PlugRoot(t, p);
  }
}
