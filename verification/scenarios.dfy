/**
 * Concrete runs of the model against the shapes the repository's own test
 * programs expect. Every tree along the way is written out, and each step
 * is one add or remove evaluated on a literal tree.
 */
module Scenarios {
  import opened Optional
  import opened AvlTree
  import Path
  import KeyedAvl
  import InlineAvl
  import Iterator

  // ---------------------------------------------------------------------
  // avltest.c:166-214: keys 0..9 added in ascending order
  // ---------------------------------------------------------------------

  const Asc0: Tree<int> := Nil
  const Asc1: Tree<int> := Leaf(0, 0)
  const Asc2: Tree<int> := Node(Nil, 0, 0, Leaf(1, 0), 2)
  const Asc3: Tree<int> := Node(Leaf(0, 0), 1, 0, Leaf(2, 0), 2)
  const Asc4: Tree<int> := Node(Leaf(0, 0), 1, 0, Node(Nil, 2, 0, Leaf(3, 0), 2), 3)
  const Asc5: Tree<int> := Node(Leaf(0, 0), 1, 0, Node(Leaf(2, 0), 3, 0, Leaf(4, 0), 2), 3)
  const Asc6: Tree<int> := Node(Node(Leaf(0, 0), 1, 0, Leaf(2, 0), 2), 3, 0, Node(Nil, 4, 0, Leaf(5, 0), 2), 3)
  const Asc7: Tree<int> := Node(Node(Leaf(0, 0), 1, 0, Leaf(2, 0), 2), 3, 0, Node(Leaf(4, 0), 5, 0, Leaf(6, 0), 2), 3)
  const Asc8: Tree<int> := Node(Node(Leaf(0, 0), 1, 0, Leaf(2, 0), 2), 3, 0, Node(Leaf(4, 0), 5, 0, Node(Nil, 6, 0, Leaf(7, 0), 2), 3), 4)
  const Asc9: Tree<int> := Node(Node(Leaf(0, 0), 1, 0, Leaf(2, 0), 2), 3, 0, Node(Leaf(4, 0), 5, 0, Node(Leaf(6, 0), 7, 0, Leaf(8, 0), 2), 3), 4)
  const Asc10: Tree<int> := Node(Node(Leaf(0, 0), 1, 0, Leaf(2, 0), 2), 3, 0, Node(Node(Leaf(4, 0), 5, 0, Leaf(6, 0), 2), 7, 0, Node(Nil, 8, 0, Leaf(9, 0), 2), 3), 4)

  /** Add the keys `lo`, `lo + 1`, ..., `hi - 1` in turn, each with element 0. */
  function AddAscending(t: KeyedAvl.KeyedTree<int>, lo: int, hi: int): KeyedAvl.KeyedTree<int>
    decreases hi - lo
  {
    if lo >= hi then t else AddAscending(KeyedAvl.Add(t, 0, lo).0, lo + 1, hi)
  }

  lemma AddStep0()
    ensures KeyedAvl.Add(KeyedAvl.KeyedTree(Asc0, 0), 0, 0).0 == KeyedAvl.KeyedTree(Asc1, 1)
  {
  }

  lemma AddStep1()
    ensures KeyedAvl.Add(KeyedAvl.KeyedTree(Asc1, 1), 0, 1).0 == KeyedAvl.KeyedTree(Asc2, 2)
  {
  }

  lemma AddStep2()
    ensures KeyedAvl.Add(KeyedAvl.KeyedTree(Asc2, 2), 0, 2).0 == KeyedAvl.KeyedTree(Asc3, 3)
  {
  }

  lemma AddStep3()
    ensures KeyedAvl.Add(KeyedAvl.KeyedTree(Asc3, 3), 0, 3).0 == KeyedAvl.KeyedTree(Asc4, 4)
  {
  }

  lemma AddStep4()
    ensures KeyedAvl.Add(KeyedAvl.KeyedTree(Asc4, 4), 0, 4).0 == KeyedAvl.KeyedTree(Asc5, 5)
  {
  }

  lemma AddStep5()
    ensures KeyedAvl.Add(KeyedAvl.KeyedTree(Asc5, 5), 0, 5).0 == KeyedAvl.KeyedTree(Asc6, 6)
  {
  }

  lemma AddStep6()
    ensures KeyedAvl.Add(KeyedAvl.KeyedTree(Asc6, 6), 0, 6).0 == KeyedAvl.KeyedTree(Asc7, 7)
  {
  }

  lemma AddStep7()
    ensures KeyedAvl.Add(KeyedAvl.KeyedTree(Asc7, 7), 0, 7).0 == KeyedAvl.KeyedTree(Asc8, 8)
  {
  }

  lemma AddStep8()
    ensures KeyedAvl.Add(KeyedAvl.KeyedTree(Asc8, 8), 0, 8).0 == KeyedAvl.KeyedTree(Asc9, 9)
  {
    var f0, f1 := Path.WentRight(Nil, 7, 0, 1), Path.WentRight(Nil, 6, 0, 2);
    var f2, f3 := Path.WentRight(Leaf(4, 0), 5, 0, 3), Path.WentRight(Asc8.lc, 3, 0, 4);
    assert Path.Dive(Asc8, 8) == Path.Dived(Path.MissingRight, [f0, f1, f2, f3], Nil);
    var t1 := Path.Step(f0, Leaf(8, 0));
    assert t1 == Node(Nil, 7, 0, Leaf(8, 0), 2);
    var t2 := Path.Step(f1, t1);
    assert t2 == Node(Leaf(6, 0), 7, 0, Leaf(8, 0), 2);
    var t3 := Path.Step(f2, t2);
    assert t3 == Asc9.rc;
    assert Path.Rebalance([f3], t3) == Asc9;
    assert Path.Rebalance([f2, f3], t2) == Asc9 by {
      assert [f2, f3][1..] == [f3];
    }
    assert Path.Rebalance([f1, f2, f3], t1) == Asc9 by {
      assert [f1, f2, f3][1..] == [f2, f3];
    }
    assert [f0, f1, f2, f3][1..] == [f1, f2, f3];
  }

  lemma AddStep9()
    ensures KeyedAvl.Add(KeyedAvl.KeyedTree(Asc9, 9), 0, 9).0 == KeyedAvl.KeyedTree(Asc10, 10)
  {
  }

  /**
   * Adding 0..9 in ascending order gives
   *
   *              3
   *            /   \
   *           1     7
   *          / \   / \
   *         0   2 5   8
   *              / \   \
   *             4   6   9
   *
   * with size 10 and height 4.
   */
  lemma AscendingTen()
    ensures AddAscending(KeyedAvl.TreeInit(), 0, 10) == KeyedAvl.KeyedTree(Asc10, 10)
    ensures Asc10.key == 3 && Asc10.lc.key == 1 && Asc10.rc.key == 7
    ensures Asc10.rc.lc.key == 5 && Asc10.rc.rc.key == 8 && Asc10.rc.rc.rc.key == 9
    ensures KeyedAvl.AvlHeight(KeyedAvl.KeyedTree(Asc10, 10)) == 4
  {
    assert KeyedAvl.TreeInit<int>() == KeyedAvl.KeyedTree(Asc0, 0);
    AddStep0();
    assert AddAscending(KeyedAvl.KeyedTree(Asc0, 0), 0, 10) == AddAscending(KeyedAvl.KeyedTree(Asc1, 1), 1, 10);
    AddStep1();
    assert AddAscending(KeyedAvl.KeyedTree(Asc1, 1), 1, 10) == AddAscending(KeyedAvl.KeyedTree(Asc2, 2), 2, 10);
    AddStep2();
    assert AddAscending(KeyedAvl.KeyedTree(Asc2, 2), 2, 10) == AddAscending(KeyedAvl.KeyedTree(Asc3, 3), 3, 10);
    AddStep3();
    assert AddAscending(KeyedAvl.KeyedTree(Asc3, 3), 3, 10) == AddAscending(KeyedAvl.KeyedTree(Asc4, 4), 4, 10);
    AddStep4();
    assert AddAscending(KeyedAvl.KeyedTree(Asc4, 4), 4, 10) == AddAscending(KeyedAvl.KeyedTree(Asc5, 5), 5, 10);
    AddStep5();
    assert AddAscending(KeyedAvl.KeyedTree(Asc5, 5), 5, 10) == AddAscending(KeyedAvl.KeyedTree(Asc6, 6), 6, 10);
    AddStep6();
    assert AddAscending(KeyedAvl.KeyedTree(Asc6, 6), 6, 10) == AddAscending(KeyedAvl.KeyedTree(Asc7, 7), 7, 10);
    AddStep7();
    assert AddAscending(KeyedAvl.KeyedTree(Asc7, 7), 7, 10) == AddAscending(KeyedAvl.KeyedTree(Asc8, 8), 8, 10);
    AddStep8();
    assert AddAscending(KeyedAvl.KeyedTree(Asc8, 8), 8, 10) == AddAscending(KeyedAvl.KeyedTree(Asc9, 9), 9, 10);
    AddStep9();
    assert AddAscending(KeyedAvl.KeyedTree(Asc9, 9), 9, 10) == AddAscending(KeyedAvl.KeyedTree(Asc10, 10), 10, 10);
  }

  /**
   * Remove the keys `lo`, `lo + 1`, ..., `hi - 1` in turn; the flag is
   * true when every removal handed back an element.
   */
  function RemoveAscending(t: KeyedAvl.KeyedTree<int>, lo: int, hi: int): (KeyedAvl.KeyedTree<int>, bool)
    decreases hi - lo
  {
    if lo >= hi then (t, true)
    else
      var r := KeyedAvl.Rem(t, lo);
      var rest := RemoveAscending(r.0, lo + 1, hi);
      (rest.0, rest.1 && r.1.Some?)
  }

  /** Ascending adds above every key present keep the tree well formed and add exactly those keys. */
  lemma {:induction false} AddAscendingKeys(t: KeyedAvl.KeyedTree<int>, lo: int, hi: int)
    requires KeyedAvl.Wf(t) && (forall k :: k in KeySet(t.top) ==> k < lo)
    ensures KeyedAvl.Wf(AddAscending(t, lo, hi))
    ensures forall k :: k in KeySet(AddAscending(t, lo, hi).top) <==> (k in KeySet(t.top) || lo <= k < hi)
    decreases hi - lo
  {
    if lo < hi {
      KeyedAvl.AddFresh(t, 0, lo);
      AddAscendingKeys(KeyedAvl.Add(t, 0, lo).0, lo + 1, hi);
    }
  }

  /**
   * Removing, in ascending order, exactly the keys a tree holds finds every
   * one of them and ends with the empty tree of size 0.
   */
  lemma {:induction false} RemoveAscendingEmpties(t: KeyedAvl.KeyedTree<int>, lo: int, hi: int)
    requires KeyedAvl.Wf(t) && (forall k :: k in KeySet(t.top) <==> lo <= k < hi)
    ensures RemoveAscending(t, lo, hi) == (KeyedAvl.KeyedTree(Nil, 0), true)
    decreases hi - lo
  {
    if lo < hi {
      KeyedAvl.RemPresent(t, lo);
      RemoveAscendingEmpties(KeyedAvl.Rem(t, lo).0, lo + 1, hi);
    } else {
      KeySetEmpty(t.top);
    }
  }

  /** The loop at the end of the ascending test: removing 0..9 finds each key and empties the tree. */
  lemma AscendingTenEmpties()
    ensures RemoveAscending(KeyedAvl.KeyedTree(Asc10, 10), 0, 10) == (KeyedAvl.KeyedTree(Nil, 0), true)
    ensures KeyedAvl.AvlHeight(RemoveAscending(KeyedAvl.KeyedTree(Asc10, 10), 0, 10).0) == 0
  {
    var t := KeyedAvl.KeyedTree(Asc10, 10);
    var init := KeyedAvl.TreeInit<int>();
    AscendingTen();
    AddAscendingKeys(init, 0, 10);
    assert AddAscending(init, 0, 10) == t;
    assert KeyedAvl.Wf(t) && forall k :: k in KeySet(t.top) <==> 0 <= k < 10;
    RemoveAscendingEmpties(t, 0, 10);
  }

  // ---------------------------------------------------------------------
  // avltest.c:145-162: keys 1, 2, 3 added, then removed
  // ---------------------------------------------------------------------

  const Three: Tree<int> := Node(Leaf(1, 0), 2, 0, Leaf(3, 0), 2)

  /** Adding 1, 2, 3 rotates once, to a tree of height 2. */
  lemma AscendingThree()
    ensures KeyedAvl.Add(KeyedAvl.Add(KeyedAvl.Add(KeyedAvl.TreeInit(), 0, 1).0, 0, 2).0, 0, 3).0 ==
            KeyedAvl.KeyedTree(Three, 3)
    ensures KeyedAvl.AvlHeight(KeyedAvl.KeyedTree(Three, 3)) == 2
  {
    var t := KeyedAvl.Add(KeyedAvl.TreeInit(), 0, 1).0;
    assert t.top == Leaf(1, 0);
    t := KeyedAvl.Add(t, 0, 2).0;
    assert t.top == Node(Nil, 1, 0, Leaf(2, 0), 2);
  }

  /** Removing 2 moves its predecessor 1 into the root node. */
  lemma RemoveTwo()
    ensures KeyedAvl.Rem(KeyedAvl.KeyedTree(Three, 3), 2) ==
            (KeyedAvl.KeyedTree(Node(Nil, 1, 0, Leaf(3, 0), 2), 2), Some(0))
  {
    assert Path.Dive(Three, 2) == Path.Dived(Path.Found, [], Three);
    assert Path.RightmostPath(Three.lc) == ([], Leaf(1, 0));
    var f := Path.WentLeft(1, 0, Leaf(3, 0), 2);
    assert [] + ([f] + []) == [f];
    assert KeyedAvl.Replace([], Three) == Path.Rebalance([f], Nil);
    assert Path.Rebalance([f], Nil) == Node(Nil, 1, 0, Leaf(3, 0), 2);
  }

  /** Removing 1 then 3 leaves the empty tree: height 0, size 0. */
  lemma EmptyAgain()
    ensures var t := KeyedAvl.Rem(KeyedAvl.KeyedTree(Node(Nil, 1, 0, Leaf(3, 0), 2), 2), 1).0;
            t == KeyedAvl.KeyedTree(Leaf(3, 0), 1) &&
            KeyedAvl.Rem(t, 3).0 == KeyedAvl.KeyedTree(Nil, 0) &&
            KeyedAvl.AvlHeight(KeyedAvl.Rem(t, 3).0) == 0
  {
    var n := Node(Nil, 1, 0, Leaf(3, 0), 2);
    assert Path.Dive(n, 1) == Path.Dived(Path.Found, [], n);
    assert Path.LeftmostPath(n.rc) == ([], Leaf(3, 0));
    var f := Path.WentRight(Nil, 3, 0, 2);
    assert [] + ([f] + []) == [f];
    assert KeyedAvl.Replace([], n) == Path.Rebalance([f], Nil);
    assert Path.Dive(Leaf(3, 0), 3) == Path.Dived(Path.Found, [], Leaf(3, 0));
  }

  // ---------------------------------------------------------------------
  // avltest_08.c:64-69: removing the root of the perfect tree of 1..7
  // ---------------------------------------------------------------------

  const Seven: Tree<int> :=
    Node(Node(Leaf(1, 0), 2, 0, Leaf(3, 0), 2), 4, 0, Node(Leaf(5, 0), 6, 0, Leaf(7, 0), 2), 3)

  const Up0: Tree<int> := Nil
  const Up1: Tree<int> := Leaf(1, 0)
  const Up2: Tree<int> := Node(Nil, 1, 0, Leaf(2, 0), 2)
  const Up3: Tree<int> := Node(Leaf(1, 0), 2, 0, Leaf(3, 0), 2)
  const Up4: Tree<int> := Node(Leaf(1, 0), 2, 0, Node(Nil, 3, 0, Leaf(4, 0), 2), 3)
  const Up5: Tree<int> := Node(Leaf(1, 0), 2, 0, Node(Leaf(3, 0), 4, 0, Leaf(5, 0), 2), 3)
  const Up6: Tree<int> := Node(Node(Leaf(1, 0), 2, 0, Leaf(3, 0), 2), 4, 0, Node(Nil, 5, 0, Leaf(6, 0), 2), 3)

  lemma InlineStep1()
    ensures InlineAvl.Add(InlineAvl.AvlState(Up0, 0, 0), 1, 0).0 == InlineAvl.AvlState(Up1, 1, 1)
  {
  }

  lemma InlineStep2()
    ensures InlineAvl.Add(InlineAvl.AvlState(Up1, 1, 1), 2, 0).0 == InlineAvl.AvlState(Up2, 2, 2)
  {
  }

  lemma InlineStep3()
    ensures InlineAvl.Add(InlineAvl.AvlState(Up2, 2, 2), 3, 0).0 == InlineAvl.AvlState(Up3, 3, 3)
  {
  }

  lemma InlineStep4()
    ensures InlineAvl.Add(InlineAvl.AvlState(Up3, 3, 3), 4, 0).0 == InlineAvl.AvlState(Up4, 4, 4)
  {
  }

  lemma InlineStep5()
    ensures InlineAvl.Add(InlineAvl.AvlState(Up4, 4, 4), 5, 0).0 == InlineAvl.AvlState(Up5, 5, 5)
  {
  }

  lemma InlineStep6()
    ensures InlineAvl.Add(InlineAvl.AvlState(Up5, 5, 5), 6, 0).0 == InlineAvl.AvlState(Up6, 6, 6)
  {
  }

  lemma InlineStep7()
    ensures InlineAvl.Add(InlineAvl.AvlState(Up6, 6, 6), 7, 0).0 == InlineAvl.AvlState(Seven, 7, 7)
  {
  }

  /** The intrusive engine builds the perfect tree from 1..7 added in order. */
  lemma AscendingSeven()
    ensures AddUp(InlineAvl.TreeInit(), 1, 8) == InlineAvl.AvlState(Seven, 7, 7)
  {
    assert InlineAvl.TreeInit<int>() == InlineAvl.AvlState(Up0, 0, 0);
    InlineStep1();
    assert AddUp(InlineAvl.AvlState(Up0, 0, 0), 1, 8) == AddUp(InlineAvl.AvlState(Up1, 1, 1), 2, 8);
    InlineStep2();
    assert AddUp(InlineAvl.AvlState(Up1, 1, 1), 2, 8) == AddUp(InlineAvl.AvlState(Up2, 2, 2), 3, 8);
    InlineStep3();
    assert AddUp(InlineAvl.AvlState(Up2, 2, 2), 3, 8) == AddUp(InlineAvl.AvlState(Up3, 3, 3), 4, 8);
    InlineStep4();
    assert AddUp(InlineAvl.AvlState(Up3, 3, 3), 4, 8) == AddUp(InlineAvl.AvlState(Up4, 4, 4), 5, 8);
    InlineStep5();
    assert AddUp(InlineAvl.AvlState(Up4, 4, 4), 5, 8) == AddUp(InlineAvl.AvlState(Up5, 5, 5), 6, 8);
    InlineStep6();
    assert AddUp(InlineAvl.AvlState(Up5, 5, 5), 6, 8) == AddUp(InlineAvl.AvlState(Up6, 6, 6), 7, 8);
    InlineStep7();
    assert AddUp(InlineAvl.AvlState(Up6, 6, 6), 7, 8) == AddUp(InlineAvl.AvlState(Seven, 7, 7), 8, 8);
  }

  /** Add the keys `from`, ..., `to - 1` in turn to the intrusive engine, each with element 0. */
  function AddUp(s: InlineAvl.AvlState<int>, from: int, to: int): InlineAvl.AvlState<int>
    decreases to - from
  {
    if from >= to then s else AddUp(InlineAvl.Add(s, from, 0).0, from + 1, to)
  }

  /**
   * Removing 4 moves its predecessor 3 to the root and leaves 2 leaning
   * left; the removed node comes back with no children and height 0.
   */
  lemma RemoveRootOfSeven()
    ensures InlineAvl.Rem(InlineAvl.AvlState(Seven, 7, 7), 4) ==
            (InlineAvl.AvlState(
               Node(Node(Leaf(1, 0), 2, 0, Nil, 2), 3, 0, Node(Leaf(5, 0), 6, 0, Leaf(7, 0), 2), 3), 6, 8),
             Some(Node(Nil, 4, 0, Nil, 0)))
    ensures Balance(Node(Leaf(1, 0), 2, 0, Nil, 2)) == -1
  {
    assert Path.Dive(Seven, 4) == Path.Dived(Path.Found, [], Seven);
    var f1 := Path.WentRight(Leaf(1, 0), 2, 0, 2);
    assert Path.RightmostPath(Leaf(3, 0)) == ([], Leaf(3, 0));
    assert [] + [f1] == [f1];
    assert Path.RightmostPath(Seven.lc) == ([f1], Leaf(3, 0));
    var f2 := Path.WentLeft(3, 0, Seven.rc, 1);
    assert [f1] + ([f2] + []) == [f1, f2];
    assert InlineAvl.Detach([], Seven) == Path.Rebalance([f1, f2], Nil);
    var x := Node(Leaf(1, 0), 2, 0, Nil, 2);
    assert Path.Step(f1, Nil) == x;
    assert [f1, f2][1..] == [f2];
    assert Path.Rebalance([f1, f2], Nil) == Path.Rebalance([f2], x);
    assert Path.Step(f2, x) == Node(x, 3, 0, Seven.rc, 3);
  }

  // ---------------------------------------------------------------------
  // avltest.c:504-525: a cursor invalidated by an add
  // ---------------------------------------------------------------------

  /**
   * A forward cursor over {1, 2, 3} yields 1; after 5 is added its next
   * step reports -1.
   */
  lemma CursorInvalidated()
    ensures var s := InlineAvl.AvlState(Three, 3, 3);
            var r := Iterator.Next(Iterator.Start(s, false, 64, 8), s);
            r.0 == Iterator.Yielded(Entry(1, 0)) &&
            Iterator.Code(Iterator.Next(r.1, InlineAvl.Add(s, 5, 0).0).0) == -1
  {
    var s := InlineAvl.AvlState(Three, 3, 3);
    var it := Iterator.Start(s, false, 64, 8);
    assert it.stack.data == [Three, Leaf(1, 0)];
    assert Iterator.Next(it, s).0 == Iterator.Yielded(Entry(1, 0));
    assert InlineAvl.Add(s, 5, 0).0.gen == 4;
  }
}
