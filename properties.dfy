/** Properties relating several operations: the round trips between
    insertion and removal, the agreement of the two replacement policies,
    the independence of insertion order, and what the driver in `main`
    (RBTree.rs:871-887) checks after every step. */
module Properties {
  import opened Trees
  import opened Validator
  import opened Insertion
  import opened Deletion
  import opened Repair

  /** Inserting a new key and removing it again gives back a tree with the
      same in-order keys, under either replacement policy. */
  lemma InsertThenDelete(t: Tree, x: int, successor: int)
    requires Valid(t) && x !in Keys(t)
    ensures Insert(t, x).Done?
    ensures Delete(Insert(t, x).value, x, successor).Done?
    ensures InOrder(Delete(Insert(t, x).value, x, successor).value) == InOrder(t)
  {
    InsertCorrect(t, x);
    var u := Insert(t, x).value;
    DeleteCorrect(u, x, successor);
    var w := Delete(u, x, successor).value;
    assert Keys(w) == Keys(t);
    SameKeysSameInOrder(w, t);
  }

  /** Removing a present key and inserting it again gives back a tree with
      the same in-order keys. */
  lemma DeleteThenInsert(t: Tree, x: int, successor: int)
    requires Valid(t) && x in Keys(t)
    ensures Delete(t, x, successor).Done?
    ensures Insert(Delete(t, x, successor).value, x).Done?
    ensures InOrder(Insert(Delete(t, x, successor).value, x).value) == InOrder(t)
  {
    DeleteCorrect(t, x, successor);
    var u := Delete(t, x, successor).value;
    InsertCorrect(u, x);
    var w := Insert(u, x).value;
    assert Keys(w) == Keys(t);
    SameKeysSameInOrder(w, t);
  }

  /** The predecessor and the successor policy remove the same key and
      leave the same in-order keys (the trees themselves may differ). */
  lemma DeletePoliciesAgree(t: Tree, x: int)
    requires Valid(t) && x in Keys(t)
    ensures Delete(t, x, 0).Done? && Delete(t, x, 1).Done?
    ensures InOrder(Delete(t, x, 0).value) == InOrder(Delete(t, x, 1).value)
  {
    DeleteCorrect(t, x, 0);
    DeleteCorrect(t, x, 1);
    SameKeysSameInOrder(Delete(t, x, 0).value, Delete(t, x, 1).value);
  }

  /** Two new keys inserted in either order give the same in-order keys. */
  lemma InsertOrderIrrelevant(t: Tree, a: int, b: int)
    requires Valid(t) && a !in Keys(t) && b !in Keys(t) && a != b
    ensures Insert(t, a).Done? && Insert(t, b).Done?
    ensures Insert(Insert(t, a).value, b).Done? && Insert(Insert(t, b).value, a).Done?
    ensures InOrder(Insert(Insert(t, a).value, b).value) == InOrder(Insert(Insert(t, b).value, a).value)
  {
    InsertCorrect(t, a);
    InsertCorrect(t, b);
    InsertCorrect(Insert(t, a).value, b);
    InsertCorrect(Insert(t, b).value, a);
    SameKeysSameInOrder(Insert(Insert(t, a).value, b).value, Insert(Insert(t, b).value, a).value);
  }

  /** The driver's check after an insertion of a new key into a valid
      tree: the validator accepts the result and reports its black-height. */
  lemma ValidatorAcceptsInsert(t: Tree, x: int)
    requires Valid(t) && x !in Keys(t)
    ensures Insert(t, x).Done?
    ensures Check(Insert(t, x).value, true) == BH(Insert(t, x).value) >= 0
  {
    InsertCorrect(t, x);
  }

  /** The same after the removal of a present key. */
  lemma ValidatorAcceptsDelete(t: Tree, x: int, successor: int)
    requires Valid(t) && x in Keys(t)
    ensures Delete(t, x, successor).Done?
    ensures Check(Delete(t, x, successor).value, true) == BH(Delete(t, x, successor).value) >= 0
  {
    DeleteCorrect(t, x, successor);
  }

  /** Inserting 50, 30, 55, 60, 62, 53, 35 into the empty tree: 60 causes a
      Red-uncle recolouring, 62 a Black-uncle rotation, 53 another
      recolouring; the root stays 50 throughout and every tree on the way
      is valid. */
  lemma InsertScenario()
    ensures Insert(Nil, 50) == Done(T1())
    ensures Insert(T1(), 30) == Done(T2())
    ensures Insert(T2(), 55) == Done(T3())
    ensures Insert(T3(), 60) == Done(T4())
    ensures Insert(T4(), 62) == Done(T5())
    ensures Insert(T5(), 53) == Done(T6())
    ensures Insert(T6(), 35) == Done(T7())
    ensures Valid(T7()) && T7().key == 50
  {
    ScenarioSteps1To3();
    ScenarioStep4();
    ScenarioStep5();
    ScenarioStep6();
    ScenarioStep7();
  }

  function T1(): Tree { B(50) }
  function T2(): Tree { Node(Black, R(30), 50, Nil) }
  function T3(): Tree { Node(Black, R(30), 50, R(55)) }
  function T4(): Tree { Node(Black, B(30), 50, Node(Black, Nil, 55, R(60))) }
  function T5(): Tree { Node(Black, B(30), 50, Node(Black, R(55), 60, R(62))) }
  function T6(): Tree { Node(Black, B(30), 50, Node(Red, Node(Black, R(53), 55, Nil), 60, B(62))) }
  function T7(): Tree { Node(Black, Node(Black, Nil, 30, R(35)), 50, T6().right) }

  lemma ScenarioSteps1To3()
    ensures Insert(Nil, 50) == Done(T1())
    ensures Insert(T1(), 30) == Done(T2())
    ensures Insert(T2(), 55) == Done(T3())
  {
    var f := Frame(Left, Black, 50, Nil);
    assert [] + [f] == [f];
    assert InsertBst(T1(), 30) == (T2(), Some([f]));
    assert Plug(R(30), [f]) == Plug(T2(), []);
    var g := Frame(Right, Black, 50, R(30));
    assert [] + [g] == [g];
    assert InsertBst(T2(), 55) == (T3(), Some([g]));
    assert Plug(R(55), [g]) == Plug(T3(), []);
  }

  lemma ScenarioStep4()
    ensures Insert(T3(), 60) == Done(T4())
  {
    var f55, f50 := Frame(Right, Red, 55, Nil), Frame(Right, Black, 50, R(30));
    assert [] + [f55] == [f55];
    assert InsertBst(R(55), 60) == (Node(Red, Nil, 55, R(60)), Some([f55]));
    assert [f55] + [f50] == [f55, f50];
    var p := [f55, f50];
    assert InsertBst(T3(), 60).1 == Some(p);
    assert p[2..] == [];
    assert InsertFix(R(60), p) == InsertFix(RedUncleRecolor(R(60), f55, f50), []);
  }

  lemma ScenarioStep5()
    ensures Insert(T4(), 62) == Done(T5())
  {
    var f60, f55, f50 := Frame(Right, Red, 60, Nil), Frame(Right, Black, 55, Nil), Frame(Right, Black, 50, B(30));
    assert [] + [f60] == [f60];
    assert [f60] + [f55] == [f60, f55];
    assert [f60, f55] + [f50] == [f60, f55, f50];
    var p := [f60, f55, f50];
    assert InsertBst(T4(), 62).1 == Some(p);
    assert p[2..] == [f50] && p[2] == f50;
    var top := BlackUncleRotation(R(62), f60, f55);
    assert top == Node(Black, R(55), 60, R(62));
    assert InsertFix(R(62), p) == Done(Plug(top, [f50]));
    assert Plug(top, [f50]) == Plug(T5(), []);
  }

  lemma ScenarioStep6()
    ensures Insert(T5(), 53) == Done(T6())
  {
    var f55, f60, f50 := Frame(Left, Red, 55, Nil), Frame(Left, Black, 60, R(62)), Frame(Right, Black, 50, B(30));
    assert [] + [f55] == [f55];
    assert [f55] + [f60] == [f55, f60];
    assert [f55, f60] + [f50] == [f55, f60, f50];
    var p := [f55, f60, f50];
    assert InsertBst(T5(), 53).1 == Some(p);
    assert p[2..] == [f50];
    var g := RedUncleRecolor(R(53), f55, f60);
    assert g == T6().right;
    assert InsertFix(R(53), p) == InsertFix(g, [f50]);
    assert Plug(g, [f50]) == Plug(T6(), []);
  }

  lemma ScenarioStep7()
    ensures Insert(T6(), 35) == Done(T7())
    ensures Valid(T7()) && T7().key == 50
  {
    var f30, f50 := Frame(Right, Black, 30, Nil), Frame(Left, Black, 50, T6().right);
    assert [] + [f30] == [f30];
    assert [f30] + [f50] == [f30, f50];
    var p := [f30, f50];
    assert InsertBst(T6(), 35).1 == Some(p);
    assert Plug(R(35), p) == Plug(Attach(f30, R(35)), [f50]);
    assert Plug(Attach(f30, R(35)), [f50]) == Plug(T7(), []);
    assert InOrder(T7()) == [30, 35, 50, 53, 55, 60, 62];
    SortedFromNeighbours(InOrder(T7()));
  }
}
