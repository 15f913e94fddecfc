/**
 * The keyed generation of the engine, avl.c: every node owns an integer key
 * and an element pointer, the path stack is a fixed array of 36 slots, and a
 * removal copies the replacement's key and element into the found node
 * instead of relinking it.
 *
 * The walk, the retrace and the rotations are the ones of the intrusive
 * engine (avl.c:123-151 and :326-442 are the same algorithm as
 * inline_avl.h), so they are shared; what differs is stated here and
 * related back to the intrusive model.
 */
module KeyedAvl {
  import opened Optional
  import opened AvlTree
  import opened Path
  import InlineAvl

  /** `ASTACK_MAX`: the slots of the path stack; a push into a full stack crashes. */
  const StackMax: nat := 36

  /** `struct avl_tree`: the root and the element count (a C `int`). */
  datatype KeyedTree<V> = KeyedTree(top: Tree<V>, size: int)

  ghost predicate Wf<V>(t: KeyedTree<V>)
  {
    Valid(t.top) && t.size == |InOrder(t.top)|
  }

  /** `AVL_TREE_INIT`. */
  function TreeInit<V>(): (t: KeyedTree<V>)
    ensures Wf(t) && KeySet(t.top) == {} && t.size == 0
  {
    KeyedTree(Nil, 0)
  }

  /**
   * `dive`'s return value: 0 for an empty tree, 1 when the missing child is
   * a left one, 2 when it is a right one, 3 when the key was found.
   */
  function DiveCode(st: DiveStatus): (c: int)
    ensures 0 <= c <= 3
    ensures c == 0 <==> st.Empty?
    ensures c == 3 <==> st.Found?
  {
    match st
    case Empty => 0
    case MissingLeft => 1
    case MissingRight => 2
    case Found => 3
  }

  /**
   * `avl_add`: 0 after linking a new node (as the root of an empty tree,
   * or under the node `dive` stopped at, followed by the retrace), -1 when
   * the key is already present, in which case nothing changes.
   */
  function Add<V>(t: KeyedTree<V>, v: V, k: int): (r: (KeyedTree<V>, int))
    ensures r.1 == 0 || r.1 == -1
    ensures r.1 == -1 ==> r.0 == t
    ensures r.1 == 0 ==> r.0.size == t.size + 1
  {
    var d := Dive(t.top, k);
    var rc := DiveCode(d.status);
    if rc == 0 then (KeyedTree(Leaf(k, v), t.size + 1), 0)
    else if rc == 3 then (t, -1)
    else (KeyedTree(Rebalance(d.path, Leaf(k, v)), t.size + 1), 0)
  }

  /** `avl_get`: the element stored under `k`, or NULL (None). */
  function Get<V>(t: KeyedTree<V>, k: int): (r: Option<V>)
    ensures r.Some? ==> Entry(k, r.value) in InOrder(t.top)
  {
    if t.top.Nil? then None
    else
      var d := Dive(t.top, k);
      if DiveCode(d.status) == 3 then
        InOrderPlug(d.path, d.focus);
        Some(d.focus.val)
      else None
  }

  /**
   * The relinking half of `avl_rem` (avl.c:229-310) for a found node `n`
   * below the stacked path `p`:
   * - a leaf is unlinked from its parent;
   * - otherwise the node is pushed back and the walk continues to the
   *   rightmost node of its left subtree, or, with no left subtree, to the
   *   leftmost node of its right subtree; that node is spliced out, keeping
   *   its left child when its key is below the found node's and its right
   *   child otherwise (avl.c:286), and its key and element move into the
   *   found node, which keeps its place and its stale height.
   * Then the whole stack is rebalanced.
   */
  function Replace<V>(p: seq<Frame<V>>, n: Tree<V>): (r: Tree<V>)
    requires n.Node?
    ensures r.Nil? <==> |p| == 0 && n.lc.Nil? && n.rc.Nil?
  {
    if n.lc.Nil? && n.rc.Nil? then Rebalance(p, Nil)
    else if n.lc.Node? then
      var (q, m) := RightmostPath(n.lc);
      Rebalance(q + ([WentLeft(m.key, m.val, n.rc, n.height)] + p),
                if m.key < n.key then m.lc else m.rc)
    else
      var (q, m) := LeftmostPath(n.rc);
      Rebalance(q + ([WentRight(n.lc, m.key, m.val, n.height)] + p),
                if m.key < n.key then m.lc else m.rc)
  }

  /**
   * `avl_rem`: NULL (None) and no change when the key is absent; otherwise
   * the found element is returned, the node holding it is replaced and the
   * size drops by one.
   */
  function Rem<V>(t: KeyedTree<V>, k: int): (r: (KeyedTree<V>, Option<V>))
    ensures r.1.None? ==> r.0 == t
    ensures r.1.Some? ==> r.0.size == t.size - 1 && Entry(k, r.1.value) in InOrder(t.top)
  {
    var d := Dive(t.top, k);
    if DiveCode(d.status) != 3 then (t, None)
    else
      InOrderPlug(d.path, d.focus);
      (KeyedTree(Replace(d.path, d.focus), t.size - 1), Some(d.focus.val))
  }

  /** `avl_height`: the root's cached height. */
  function AvlHeight<V>(t: KeyedTree<V>): (h: int)
    ensures h >= 0 && (t.top.Nil? ==> h == 0)
    ensures Wf(t) ==> h == Height(t.top)
  {
    Ht(t.top)
  }

  // ---------------------------------------------------------------------
  // Properties
  // ---------------------------------------------------------------------

  /** On an ordered tree, `avl_get` finds exactly the stored element. */
  lemma GetSpec<V>(t: KeyedTree<V>, k: int, v: V)
    requires Ordered(t.top)
    ensures Get(t, k) == Some(v) <==> Entry(k, v) in InOrder(t.top)
    ensures Get(t, k).None? <==> k !in KeySet(t.top)
  {
    KeysOfMember(InOrder(t.top), k);
    if t.top.Node? {
      DiveFinds(t.top, k);
      if Get(t, k).Some? && Entry(k, v) in InOrder(t.top) {
        EntryUnique(InOrder(t.top), Entry(k, v), Entry(k, Get(t, k).value));
      }
    }
  }

  /** On a well-formed tree the cached root height is the real height. */
  lemma HeightIsReal<V>(t: KeyedTree<V>)
    requires Wf(t)
    ensures AvlHeight(t) == Height(t.top)
  {
  }

  /** `get_balance` stays within one on every node of a valid tree. */
  lemma BalanceBounded<V>(t: Tree<V>)
    requires Avl(t)
    ensures -1 <= Balance(t) <= 1
    ensures t.Node? ==> Balance(t) == Height(t.rc) - Height(t.lc)
  {
  }

  /** Adding a fresh key returns 0 and inserts it in key order. */
  lemma AddFresh<V>(t: KeyedTree<V>, v: V, k: int)
    requires Wf(t) && k !in KeySet(t.top)
    ensures Add(t, v, k).1 == 0
    ensures Wf(Add(t, v, k).0)
    ensures InOrder(Add(t, v, k).0.top) == InsertSorted(InOrder(t.top), Entry(k, v))
    ensures KeySet(Add(t, v, k).0.top) == KeySet(t.top) + {k}
  {
    var t' := Add(t, v, k).0.top;
    if t.top.Nil? {
      assert t' == Leaf(k, v);
      assert InOrder(t') == [Entry(k, v)];
      assert Avl(t') && Ordered(t');
    } else {
      var d := Dive(t.top, k);
      DiveFinds(t.top, k);
      DiveSplits(t.top, k);
      assert d.focus.Nil?;
      assert t' == Rebalance(d.path, Leaf(k, v));
      InlineAvl.InsertAtHole(d.path, k, v);
    }
    InsertSortedKeys(InOrder(t.top), Entry(k, v));
  }

  /** Adding a key already present returns -1 and changes nothing. */
  lemma AddDuplicate<V>(t: KeyedTree<V>, v: V, k: int)
    requires Ordered(t.top) && k in KeySet(t.top)
    ensures Add(t, v, k) == (t, -1)
  {
    DiveFinds(t.top, k);
  }

  /**
   * On a valid tree the copy-and-splice removal builds the same tree as the
   * relinking removal of the intrusive engine: the frame heights it keeps
   * are never read, the key test at avl.c:286 always picks the child that
   * exists, and with no left subtree the leftmost node of the right subtree
   * is the right child itself.
   */
  lemma ReplaceAgrees<V>(p: seq<Frame<V>>, n: Tree<V>)
    requires n.Node? && Valid(Plug(p, n))
    ensures Replace(p, n) == InlineAvl.Detach(p, n)
  {
    AvlPlug(p, n);
    OrderedFocus(p, n);
    OrderedNode(n);
    if n.lc.Node? {
      ReplaceLeftAgrees(p, n);
    } else if n.rc.Node? {
      InlineAvl.NoLeftChildLeaf(n);
      ReplaceRightAgrees(p, n);
    }
  }

  /** With a left subtree, the replacement is below `n` and keeps its left child. */
  lemma ReplaceLeftAgrees<V>(p: seq<Frame<V>>, n: Tree<V>)
    requires n.Node? && n.lc.Node? && AllBelow(InOrder(n.lc), n.key)
    ensures Replace(p, n) == InlineAvl.Detach(p, n)
  {
    var r := RightmostPath(n.lc);
    var q, m := r.0, r.1;
    InlineAvl.ReplacementLast(n.lc);
    assert InOrder(n.lc)[|InOrder(n.lc)| - 1] == m.Item();
    assert m.key < n.key;
    var f := WentLeft(m.key, m.val, n.rc, n.height);
    var g := WentLeft(m.key, m.val, n.rc, m.height);
    assert Replace(p, n) == Rebalance(q + ([f] + p), m.lc);
    assert InlineAvl.Detach(p, n) == Rebalance(q + ([g] + p), m.lc);
    RebalanceFrameHeight(q, f, g, p, m.lc);
  }

  /** With only a right child, which is a leaf, that child is the replacement. */
  lemma ReplaceRightAgrees<V>(p: seq<Frame<V>>, n: Tree<V>)
    requires n.Node? && n.lc.Nil? && n.rc.Node? && n.rc.lc.Nil? && n.rc.rc.Nil?
    ensures Replace(p, n) == InlineAvl.Detach(p, n)
  {
    var m := n.rc;
    assert LeftmostPath(n.rc) == ([], m);
    var f := WentRight(n.lc, m.key, m.val, n.height);
    var g := WentRight(n.lc, m.key, m.val, m.height);
    assert [] + ([f] + p) == [f] + p;
    assert Replace(p, n) == Rebalance([f] + p, m.rc);
    assert InlineAvl.Detach(p, n) == Rebalance([g] + p, m.rc);
    RebalanceFrameHeight([], f, g, p, m.rc);
    assert [] + ([g] + p) == [g] + p;
  }

  /**
   * Removing a present key returns its element and leaves a valid tree
   * listing the old entries without that key.
   */
  lemma RemPresent<V>(t: KeyedTree<V>, k: int)
    requires Wf(t) && k in KeySet(t.top)
    ensures Rem(t, k).1.Some?
    ensures Wf(Rem(t, k).0)
    ensures InOrder(Rem(t, k).0.top) == RemoveKey(InOrder(t.top), k)
    ensures KeySet(Rem(t, k).0.top) == KeySet(t.top) - {k}
  {
    var d := Dive(t.top, k);
    DiveFinds(t.top, k);
    assert Rem(t, k).0.top == Replace(d.path, d.focus);
    ReplaceAgrees(d.path, d.focus);
    InlineAvl.RemoveAtNode(d.path, d.focus);
    RemoveKeyKeys(InOrder(t.top), k);
  }

  /** Removing an absent key, or from an empty tree, returns None and changes nothing. */
  lemma RemAbsent<V>(t: KeyedTree<V>, k: int)
    requires Ordered(t.top) && k !in KeySet(t.top)
    ensures Rem(t, k) == (t, None)
  {
    DiveFinds(t.top, k);
  }

  /**
   * The stack never overflows on a tree at most `StackMax` high: `dive`
   * pushes at most one node per level, and a removal pushes the found node
   * back and then the walk to its replacement, still one node per level.
   */
  lemma StackFits<V>(t: Tree<V>, k: int)
    requires Height(t) <= StackMax
    ensures |Dive(t, k).path| + (if Dive(t, k).status.Found? then 1 else 0) <= StackMax
    ensures Dive(t, k).status.Found? && Dive(t, k).focus.lc.Node? ==>
              |Dive(t, k).path| + 1 + |RightmostPath(Dive(t, k).focus.lc).0| + 1 <= StackMax
    ensures Dive(t, k).status.Found? && Dive(t, k).focus.lc.Nil? && Dive(t, k).focus.rc.Node? ==>
              |Dive(t, k).path| + 1 + |LeftmostPath(Dive(t, k).focus.rc).0| + 1 <= StackMax
  {
    var d := Dive(t, k);
    PlugHeight(d.path, d.focus);
  }
}
