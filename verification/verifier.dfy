/**
 * The structural checkers: `recursive_check_height`/`verify_tree` of
 * avl_it.c (cached heights and balance) and of basic_test.c (the same plus
 * a key comparison between each node and its children).
 *
 * A failing C `assert` aborts; here every check returns `None` instead, so
 * "the checker accepts the tree" is `Some`.
 */
module Verifier {
  import opened Optional
  import opened AvlTree

  /** Both children carry correct cached heights all the way down. */
  predicate ChildrenCached<V>(t: Tree<V>)
  {
    t.Nil? || (HeightsOk(t.lc) && HeightsOk(t.rc))
  }

  /**
   * `recursive_check_height` of avl_it.c: recompute each child's height,
   * require it to equal the child's cached height, require balance within
   * one, and return the recomputed height. The node's own cached height is
   * left to its parent (or to `verify_tree`) to check.
   */
  function CheckHeight<V>(t: Tree<V>): (r: Option<nat>)
    ensures r.Some? <==> Balanced(t) && ChildrenCached(t)
    ensures r.Some? ==> r.value == Height(t)
  {
    if t.Nil? then Some(0)
    else
      var l := CheckHeight(t.lc);
      if l.None? || l.value != Ht(t.lc) then None
      else
        var r := CheckHeight(t.rc);
        if r.None? || r.value != Ht(t.rc) then None
        else if !(-1 <= r.value - l.value <= 1) then None
        else Some(1 + Max(l.value, r.value))
  }

  /** `verify_tree` of avl_it.c: 0 exactly on a tree with the AVL shape. */
  function VerifyTree<V>(top: Tree<V>): (r: Option<int>)
    ensures r.Some? <==> Avl(top)
    ensures r.Some? ==> r.value == 0
  {
    if top.Nil? then Some(0)
    else
      var h := CheckHeight(top);
      if h.None? || h.value != Ht(top) then None else Some(0)
  }

  // ---------------------------------------------------------------------
  // basic_test.c: the checker with key comparisons
  // ---------------------------------------------------------------------

  /**
   * `recursive_check_height` of basic_test.c as written: the height and
   * balance checks of avl_it.c, plus a comparison of each node's key with
   * the keys of its two immediate children only.
   */
  function CheckLocal<V>(t: Tree<V>): (r: Option<nat>)
    ensures r.Some? ==> Balanced(t) && ChildrenCached(t) && r.value == Height(t)
    ensures Balanced(t) && ChildrenCached(t) && Ordered(t) ==> r.Some?
  {
    if t.Nil? then Some(0)
    else
      OrderedChildren(t);
      var l := CheckLocal(t.lc);
      if l.None? || l.value != Ht(t.lc) then None
      else
        var r := CheckLocal(t.rc);
        if r.None? || r.value != Ht(t.rc) then None
        else if t.lc.Node? && !(Compare(t.lc.key, t.key) < 0) then None
        else if t.rc.Node? && !(Compare(t.rc.key, t.key) > 0) then None
        else if !(-1 <= r.value - l.value <= 1) then None
        else Some(1 + Max(l.value, r.value))
  }

  /** On an ordered node each child's own key lies on its side. */
  lemma OrderedChildren<V>(t: Tree<V>)
    requires t.Node?
    ensures Ordered(t) ==> Ordered(t.lc) && Ordered(t.rc)
    ensures Ordered(t) && t.lc.Node? ==> t.lc.key < t.key
    ensures Ordered(t) && t.rc.Node? ==> t.key < t.rc.key
  {
    OrderedNode(t);
    if Ordered(t) && t.lc.Node? {
      assert t.lc.Item() in InOrder(t.lc);
    }
    if Ordered(t) && t.rc.Node? {
      assert InOrder(t.rc)[|InOrder(t.rc.lc)|] == t.rc.Item();
    }
  }

  /** `verify_tree` of basic_test.c as written. */
  function VerifyLocal<V>(top: Tree<V>): (r: Option<int>)
    ensures r.Some? ==> Avl(top) && r.value == 0
    ensures Valid(top) ==> r.Some?
  {
    if top.Nil? then Some(0)
    else
      var h := CheckLocal(top);
      if h.None? || h.value != Ht(top) then None else Some(0)
  }

  /**
   * A tree the as-written checker accepts although it is not ordered: the
   * key 4 sits in the left subtree of 3, to the right of 1. Every node is
   * in order with its children, yet the in-order walk is 1, 4, 3, 5.
   */
  function Misordered(): Tree<int>
  {
    Node(Node(Nil, 1, 0, Node(Nil, 4, 0, Nil, 1), 2), 3, 0, Node(Nil, 5, 0, Nil, 1), 3)
  }

  lemma LocalCheckMisses()
    ensures VerifyLocal(Misordered()).Some?
    ensures Avl(Misordered()) && !Ordered(Misordered())
  {
    var t := Misordered();
    assert InOrder(t.lc) == [Entry(1, 0), Entry(4, 0)];
    assert InOrder(t)[1].key > InOrder(t)[2].key;
  }

  // ---------------------------------------------------------------------
  // The corrected checker: whole-subtree key bounds
  // ---------------------------------------------------------------------

  /** Every key of `s` lies strictly between the optional bounds. */
  predicate Within<V>(s: seq<Entry<V>>, lo: Option<int>, hi: Option<int>)
  {
    forall i :: 0 <= i < |s| ==>
      (lo.Some? ==> lo.value < s[i].key) && (hi.Some? ==> s[i].key < hi.value)
  }

  /**
   * The checker basic_test.c evidently intends: the same height and balance
   * checks, with every key compared against the bounds inherited from all
   * its ancestors rather than against its children alone.
   */
  function CheckBounded<V>(t: Tree<V>, lo: Option<int>, hi: Option<int>): (r: Option<nat>)
    ensures r.Some? <==> Balanced(t) && ChildrenCached(t) && Ordered(t) && Within(InOrder(t), lo, hi)
    ensures r.Some? ==> r.value == Height(t)
  {
    if t.Nil? then Some(0)
    else if (lo.Some? && !(Compare(t.key, lo.value) > 0)) || (hi.Some? && !(Compare(t.key, hi.value) < 0)) then
      assert InOrder(t)[|InOrder(t.lc)|] == t.Item();
      None
    else
      var l := CheckBounded(t.lc, lo, Some(t.key));
      var r := CheckBounded(t.rc, Some(t.key), hi);
      BoundedSplit(t, lo, hi);
      if l.None? || l.value != Ht(t.lc) then None
      else if r.None? || r.value != Ht(t.rc) then None
      else if !(-1 <= r.value - l.value <= 1) then None
      else Some(1 + Max(l.value, r.value))
  }

  /** Splitting the bounded-order condition at a node whose key is in bounds. */
  lemma BoundedSplit<V>(t: Tree<V>, lo: Option<int>, hi: Option<int>)
    requires t.Node?
    requires lo.Some? ==> lo.value < t.key
    requires hi.Some? ==> t.key < hi.value
    ensures Ordered(t) && Within(InOrder(t), lo, hi) <==>
              Ordered(t.lc) && Within(InOrder(t.lc), lo, Some(t.key)) &&
              Ordered(t.rc) && Within(InOrder(t.rc), Some(t.key), hi)
  {
    var a, e, b := InOrder(t.lc), t.Item(), InOrder(t.rc);
    var s := a + [e] + b;
    OrderedNode(t);
    assert forall i :: 0 <= i < |a| ==> s[i] == a[i];
    assert forall j :: 0 <= j < |b| ==> s[|a| + 1 + j] == b[j];
    if Ordered(t.lc) && Within(a, lo, Some(t.key)) && Ordered(t.rc) && Within(b, Some(t.key), hi) {
      forall i | 0 <= i < |s|
        ensures (lo.Some? ==> lo.value < s[i].key) && (hi.Some? ==> s[i].key < hi.value)
      {
        if i < |a| {
          assert s[i] == a[i];
        } else if i > |a| {
          assert s[i] == b[i - |a| - 1];
        }
      }
    }
  }

  /** The corrected `verify_tree`: 0 exactly on a valid tree. */
  function VerifyOrdered<V>(top: Tree<V>): (r: Option<int>)
    ensures r.Some? <==> Valid(top)
    ensures r.Some? ==> r.value == 0
  {
    if top.Nil? then Some(0)
    else
      var h := CheckBounded(top, None, None);
      if h.None? || h.value != Ht(top) then None else Some(0)
  }

  /** The corrected checker rejects the tree the as-written one accepts. */
  lemma BoundedCheckCatches()
    ensures VerifyOrdered(Misordered()).None?
  {
    LocalCheckMisses();
  }
}
