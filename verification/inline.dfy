/**
 * The intrusive, comparator-driven engine of inline_avl.h.
 *
 * The caller's object and its embedded node are one value here: a node's
 * key is what the comparator reads from the enclosing object, and its
 * `val` stands for the object itself, so returning "the node" returns its
 * `Entry`. Because values cannot alias, the source's demand that a node be
 * added while it is in no tree (its links are overwritten before the
 * duplicate check, inline_avl.h:395-397) holds by construction.
 */
module InlineAvl {
  import opened Optional
  import opened AvlTree
  import opened Path

  /** `struct avl_tree`: the root, the element count and the generation. */
  datatype AvlState<V> = AvlState(top: Tree<V>, size: nat, gen: nat)

  /** The state every operation starts from and returns to. */
  ghost predicate Wf<V>(s: AvlState<V>)
  {
    Valid(s.top) && s.size == |InOrder(s.top)|
  }

  /** `avl_tree_init`: an empty tree at generation 0. */
  function TreeInit<V>(): (s: AvlState<V>)
    ensures Wf(s) && KeySet(s.top) == {} && s.size == 0 && s.gen == 0
  {
    AvlState(Nil, 0, 0)
  }

  /** `avl_size`: the stored element count. */
  function AvlSize<V>(s: AvlState<V>): (n: nat)
    ensures Wf(s) ==> n == |InOrder(s.top)|
  {
    s.size
  }

  /** `avl_height`: the root's cached height, 0 for an empty tree. */
  function AvlHeight<V>(s: AvlState<V>): (h: nat)
    ensures s.top.Nil? ==> h == 0
    ensures Wf(s) ==> h == Height(s.top)
  {
    Ht(s.top)
  }

  /** On a well-formed state the count is the number of distinct keys stored. */
  lemma SizeCountsKeys<V>(s: AvlState<V>)
    requires Wf(s)
    ensures AvlSize(s) == |InOrder(s.top)| == |KeySet(s.top)|
  {
    KeysOfCount(InOrder(s.top));
  }

  /** On a well-formed state the cached root height is the tree's real height. */
  lemma HeightIsReal<V>(s: AvlState<V>)
    requires Wf(s)
    ensures AvlHeight(s) == Height(s.top)
  {
  }

  /**
   * `avl_base_add`: on a key already present, the node stored under it is
   * returned and nothing changes; otherwise the new node is linked at the
   * empty slot `dive` stopped at, the path is rebalanced, both counters are
   * bumped and the new node itself is returned.
   */
  function Add<V>(s: AvlState<V>, k: int, v: V): (r: (AvlState<V>, Entry<V>))
    ensures r.1.key == k
    ensures r.0 == s || (r.0.size == s.size + 1 && r.0.gen == s.gen + 1 && r.1 == Entry(k, v))
  {
    if s.size == 0 then (AvlState(Leaf(k, v), s.size + 1, s.gen + 1), Entry(k, v))
    else
      var d := Dive(s.top, k);
      if d.status.Found? then (s, d.focus.Item())
      else (AvlState(Rebalance(d.path, Leaf(k, v)), s.size + 1, s.gen + 1), Entry(k, v))
  }

  /**
   * `avl_base_get`: walk down without a stack; the node whose key compares
   * equal, or nothing. The tree is only read.
   */
  method Get<V>(s: AvlState<V>, k: int) returns (r: Option<Entry<V>>)
    ensures r.Some? ==> r.value.key == k && r.value in InOrder(s.top)
    ensures Ordered(s.top) && r.None? ==> k !in KeySet(s.top)
  {
    var node := s.top;
    while node.Node? && Compare(k, node.key) != 0
      invariant forall e :: e in InOrder(node) ==> e in InOrder(s.top)
      invariant Ordered(s.top) ==> Ordered(node) && (k in KeySet(s.top) ==> k in KeySet(node))
      decreases node
    {
      if Ordered(s.top) {
        Descend(node, k);
      }
      if Compare(k, node.key) < 0 {
        node := node.lc;
      } else {
        node := node.rc;
      }
    }
    if node.Nil? {
      return None;
    }
    return Some(node.Item());
  }

  /**
   * The relinking half of `avl_base_rem` (inline_avl.h:476-597) for a found
   * node `n` below the stacked path `p`:
   * - a leaf is unlinked from its parent;
   * - with a left child, the rightmost node of the left subtree is unhooked
   *   (its left child takes its place) and takes `n`'s place, and its stack
   *   slot is rewritten to hold it;
   * - with no left child, the right child itself takes `n`'s place, keeping
   *   its own right child; its left child is not looked at (the source only
   *   asserts there is none).
   * Then the whole stack is rebalanced.
   */
  function Detach<V>(p: seq<Frame<V>>, n: Tree<V>): (r: Tree<V>)
    requires n.Node?
    ensures r.Nil? <==> |p| == 0 && n.lc.Nil? && n.rc.Nil?
  {
    if n.lc.Nil? && n.rc.Nil? then Rebalance(p, Nil)
    else if n.lc.Node? then
      var (q, m) := RightmostPath(n.lc);
      Rebalance(q + ([WentLeft(m.key, m.val, n.rc, m.height)] + p), m.lc)
    else
      var m := n.rc;
      Rebalance([WentRight(n.lc, m.key, m.val, m.height)] + p, m.rc)
  }

  /**
   * `avl_base_rem`: nothing happens on an empty tree or an absent key;
   * otherwise the found node is unlinked, returned with no children and
   * height 0, the size drops by one and the generation moves on.
   */
  function Rem<V>(s: AvlState<V>, k: int): (r: (AvlState<V>, Option<Tree<V>>))
    ensures r.1.None? ==> r.0 == s
    ensures r.1.Some? ==>
              r.1.value.Node? && r.1.value.key == k && r.1.value.height == 0 &&
              r.1.value.lc.Nil? && r.1.value.rc.Nil? &&
              r.0.size == s.size - 1 && r.0.gen == s.gen + 1
  {
    if s.size == 0 then (s, None)
    else
      var d := Dive(s.top, k);
      if !d.status.Found? then (s, None)
      else
        var n := d.focus;
        (AvlState(Detach(d.path, n), s.size - 1, s.gen + 1), Some(Node(Nil, n.key, n.val, Nil, 0)))
  }

  // ---------------------------------------------------------------------
  // Add
  // ---------------------------------------------------------------------

  /** A key already present: the stored node comes back and the state is kept. */
  lemma AddDuplicate<V>(s: AvlState<V>, k: int, v: V)
    requires Wf(s) && k in KeySet(s.top)
    ensures Add(s, k, v).0 == s
    ensures Add(s, k, v).1 in InOrder(s.top) && Add(s, k, v).1.key == k
  {
    assert s.size != 0;
    var d := Dive(s.top, k);
    DiveFinds(s.top, k);
    InOrderPlug(d.path, d.focus);
  }

  /**
   * Linking a new leaf into the empty slot of a valid tree, at a slot whose
   * left is all below its key and whose right all above, and retracing,
   * gives a valid tree listing the old entries with the new one inserted in
   * key order.
   */
  lemma InsertAtHole<V>(p: seq<Frame<V>>, k: int, v: V)
    requires Valid(Plug(p, Nil)) && AllBelow(Before(p), k) && AllAbove(After(p), k)
    ensures Valid(Rebalance(p, Leaf(k, v)))
    ensures InOrder(Rebalance(p, Leaf(k, v))) == InsertSorted(InOrder(Plug(p, Nil)), Entry(k, v))
    ensures |InOrder(Rebalance(p, Leaf(k, v)))| == |InOrder(Plug(p, Nil))| + 1
  {
    var e := Entry(k, v);
    var a, b := Before(p), After(p);
    AvlPlug(p, Nil);
    RebalanceAvl(p, 0, Leaf(k, v));
    InOrderPlug(p, Nil);
    DropEmpty(a, InOrder<V>(Nil), b);
    InOrderRebalance(p, Leaf(k, v));
    assert InOrder(Leaf(k, v)) == [e];
    var s := InOrder(Plug(p, Nil));
    IncreasingSub(s, 0, |a|);
    assert s[..|a|] == a;
    IncreasingSub(s, |a|, |s|);
    assert s[|a|..] == b;
    IncreasingSplit(a, e, b);
    InsertBetween(a, e, b);
  }

  /**
   * A fresh key: the new node is returned, both counters grow by one, the
   * tree stays valid and its entries are the old ones with the new entry
   * inserted in key order.
   */
  lemma AddFresh<V>(s: AvlState<V>, k: int, v: V)
    requires Wf(s) && k !in KeySet(s.top)
    ensures Wf(Add(s, k, v).0)
    ensures Add(s, k, v).1 == Entry(k, v)
    ensures Add(s, k, v).0.size == s.size + 1 && Add(s, k, v).0.gen == s.gen + 1
    ensures InOrder(Add(s, k, v).0.top) == InsertSorted(InOrder(s.top), Entry(k, v))
    ensures KeySet(Add(s, k, v).0.top) == KeySet(s.top) + {k}
  {
    var e := Entry(k, v);
    var t' := Add(s, k, v).0.top;
    if s.size == 0 {
      assert s.top.Nil? && t' == Leaf(k, v);
      assert InOrder(t') == [e];
      assert Avl(t') && Ordered(t');
    } else {
      var d := Dive(s.top, k);
      DiveFinds(s.top, k);
      DiveSplits(s.top, k);
      assert d.focus.Nil?;
      assert t' == Rebalance(d.path, Leaf(k, v));
      InsertAtHole(d.path, k, v);
    }
    InsertSortedKeys(InOrder(s.top), e);
  }

  // ---------------------------------------------------------------------
  // Remove
  // ---------------------------------------------------------------------

  /**
   * The source's asserts at inline_avl.h:519 and :571: on an AVL tree, a node
   * with no left child has a right child that is a leaf, so taking that right
   * child as the replacement loses nothing.
   */
  lemma NoLeftChildLeaf<V>(n: Tree<V>)
    requires Avl(n) && n.Node? && n.lc.Nil? && n.rc.Node?
    ensures n.rc.lc.Nil? && n.rc.rc.Nil?
  {
    assert Height(n.rc) <= 1;
    assert Height(n.rc) == 1 + Max(Height(n.rc.lc), Height(n.rc.rc));
  }

  /**
   * The replacement found with a left child is the rightmost node of the
   * left subtree: it has no right child (the assert at inline_avl.h:550) and
   * its entry comes last in that subtree's key order.
   */
  lemma ReplacementLast<V>(t: Tree<V>)
    requires t.Node?
    ensures RightmostPath(t).1.rc.Nil?
    ensures InOrder(t) ==
              Before(RightmostPath(t).0) + InOrder(RightmostPath(t).1.lc) +
              [RightmostPath(t).1.Item()]
  {
    var (q, m) := RightmostPath(t);
    InOrderPlug(q, m);
    assert InOrder(m) == InOrder(m.lc) + [m.Item()];
  }

  /** On an ordered subtree, that last entry carries the largest key. */
  lemma ReplacementIsPredecessor<V>(t: Tree<V>)
    requires t.Node? && Ordered(t)
    ensures forall e :: e in InOrder(t) ==> e.key <= RightmostPath(t).1.key
  {
    var s := InOrder(t);
    var m := RightmostPath(t).1;
    ReplacementLast(t);
    assert s[|s| - 1] == m.Item();
    forall e | e in s
      ensures e.key <= m.key
    {
      var i :| 0 <= i < |s| && s[i] == e;
      assert i == |s| - 1 || s[i].key < s[|s| - 1].key;
    }
  }

  lemma DetachLeaf<V>(p: seq<Frame<V>>, n: Tree<V>)
    requires n.Node? && n.lc.Nil? && n.rc.Nil? && Avl(Plug(p, n))
    ensures Avl(Detach(p, n))
    ensures InOrder(Detach(p, n)) == Before(p) + After(p)
  {
    assert Detach(p, n) == Rebalance(p, Nil);
    RemoveLeafAt(p, n);
  }

  /** A leaf unlinked from under its path leaves the path's entries, rebalanced. */
  lemma RemoveLeafAt<V>(p: seq<Frame<V>>, n: Tree<V>)
    requires n.Node? && n.lc.Nil? && n.rc.Nil? && Avl(Plug(p, n))
    ensures Avl(Rebalance(p, Nil))
    ensures InOrder(Rebalance(p, Nil)) == Before(p) + After(p)
  {
    assert Avl(Rebalance(p, Nil)) by {
      AvlPlug(p, n);
      assert Height(n) == 1;
      RebalanceAvl(p, 1, Nil);
    }
    InOrderRebalance(p, Nil);
    DropEmpty(Before(p), InOrder<V>(Nil), After(p));
  }

  lemma DetachLeftAvl<V>(p: seq<Frame<V>>, n: Tree<V>)
    requires n.Node? && n.lc.Node? && Avl(Plug(p, n))
    ensures Avl(Detach(p, n))
  {
    var (q, m) := RightmostPath(n.lc);
    var f0 := WentLeft(n.key, n.val, n.rc, n.height);
    var f := WentLeft(m.key, m.val, n.rc, m.height);
    assert Detach(p, n) == Rebalance(q + ([f] + p), m.lc);
    RightmostContext(p, n);
    PathOkSibling(q, f0, f, p, Height(m));
    assert Height(m) == Height(m.lc) + 1;
    RebalanceAvl(q + ([f] + p), Height(m), m.lc);
  }

  /** Seen from the rightmost node of its left subtree, an AVL tree is an AVL node in an AVL context. */
  lemma RightmostContext<V>(p: seq<Frame<V>>, n: Tree<V>)
    requires n.Node? && n.lc.Node? && Avl(Plug(p, n))
    ensures var (q, m) := RightmostPath(n.lc);
            Avl(m) && PathOk(q + ([WentLeft(n.key, n.val, n.rc, n.height)] + p), Height(m))
  {
    var (q, m) := RightmostPath(n.lc);
    var f0 := WentLeft(n.key, n.val, n.rc, n.height);
    assert ([f0] + p)[1..] == p;
    assert Fill(f0, n.lc) == n;
    assert Plug([f0] + p, n.lc) == Plug(p, n);
    PlugAppend(q, [f0] + p, m);
    AvlPlug(q + ([f0] + p), m);
  }

  /** The path invariant reads only the siblings, so a frame may change its key, value and height. */
  lemma PathOkSibling<V>(q: seq<Frame<V>>, f0: Frame<V>, f: Frame<V>, p: seq<Frame<V>>, h: nat)
    requires f0.WentLeft? && f.WentLeft? && f0.sib == f.sib
    requires PathOk(q + ([f0] + p), h)
    ensures PathOk(q + ([f] + p), h)
  {
    PathOkAppend(q, [f0] + p, h);
    PathOkAppend(q, [f] + p, h);
    assert ([f0] + p)[1..] == p && ([f] + p)[1..] == p;
  }

  /** Re-bracketing the six pieces the left-child removal rearranges. */
  lemma Regroup<T>(a: seq<T>, b: seq<T>, l: seq<T>, e: seq<T>, r: seq<T>, z: seq<T>)
    ensures (a + b) + l + (e + r + z) == a + (b + l + e) + r + z
  {
    calc {
      (a + b) + l + (e + r + z);
    ==  { assert (a + b) + l == a + (b + l); }
      a + (b + l) + (e + r + z);
    ==  { assert e + r + z == e + (r + z); }
      a + (b + l) + (e + (r + z));
    ==
      a + (b + l + e) + r + z;
    }
  }

  lemma DetachLeftInOrder<V>(p: seq<Frame<V>>, n: Tree<V>)
    requires n.Node? && n.lc.Node?
    ensures InOrder(Detach(p, n)) == Before(p) + InOrder(n.lc) + InOrder(n.rc) + After(p)
  {
    var rp := RightmostPath(n.lc);
    var q, m := rp.0, rp.1;
    var f := WentLeft(m.key, m.val, n.rc, m.height);
    var path := q + ([f] + p);
    assert Detach(p, n) == Rebalance(path, m.lc);
    SpliceInOrder(p, n.lc, n.rc, m.height);
  }

  /** The entries around the hole left by unhooking the rightmost node `m` of `lc`. */
  lemma SpliceInOrder<V>(p: seq<Frame<V>>, lc: Tree<V>, rc: Tree<V>, h: nat)
    requires lc.Node?
    ensures var (q, m) := RightmostPath(lc);
            InOrder(Rebalance(q + ([WentLeft(m.key, m.val, rc, h)] + p), m.lc)) ==
            Before(p) + InOrder(lc) + InOrder(rc) + After(p)
  {
    var rp := RightmostPath(lc);
    var q, m := rp.0, rp.1;
    var f := WentLeft(m.key, m.val, rc, h);
    var path := q + ([f] + p);
    InOrderRebalance(path, m.lc);
    SpliceSides(q, f, p);
    ReplacementLast(lc);
    var a, b, l, e, r, z := Before(p), Before(q), InOrder(m.lc), m.Item(), InOrder(rc), After(p);
    DropEmpty(a, FrameBefore(f), b);
    assert After(path) == [e] + r + z by {
      assert FrameAfter(f) == [e] + r;
      DropEmpty([], After(q), FrameAfter(f) + z);
    }
    Regroup(a, b, l, [e], r, z);
  }

  /** The entries either side of a path with one frame spliced into its middle. */
  lemma SpliceSides<V>(q: seq<Frame<V>>, f: Frame<V>, p: seq<Frame<V>>)
    ensures Before(q + ([f] + p)) == Before(p) + FrameBefore(f) + Before(q)
    ensures After(q + ([f] + p)) == After(q) + (FrameAfter(f) + After(p))
  {
    BeforeAfterAppend(q, [f] + p);
    BeforeAfterAppend([f], p);
    FrameSplit([f]);
    assert [f][1..] == [];
  }

  lemma DetachRight<V>(p: seq<Frame<V>>, n: Tree<V>)
    requires n.Node? && n.lc.Nil? && n.rc.Node? && Avl(Plug(p, n))
    ensures Avl(Detach(p, n))
    ensures InOrder(Detach(p, n)) == Before(p) + InOrder(n.rc) + After(p)
  {
    var m := n.rc;
    var f := WentRight(n.lc, m.key, m.val, m.height);
    assert Detach(p, n) == Rebalance([f] + p, m.rc);
    AvlPlug(p, n);
    NoLeftChildLeaf(n);
    assert ([f] + p)[1..] == p;
    assert PathOk([f] + p, 1);
    RebalanceAvl([f] + p, 1, m.rc);
    InOrderRebalance([f] + p, m.rc);
  }

  /**
   * Unlinking a node from a valid tree leaves an AVL tree listing the same
   * entries minus the node's own.
   */
  lemma DetachSpec<V>(p: seq<Frame<V>>, n: Tree<V>)
    requires n.Node? && Avl(Plug(p, n))
    ensures Avl(Detach(p, n))
    ensures InOrder(Detach(p, n)) == Before(p) + InOrder(n.lc) + InOrder(n.rc) + After(p)
  {
    if n.lc.Nil? && n.rc.Nil? {
      DetachLeaf(p, n);
    } else if n.lc.Node? {
      DetachLeftAvl(p, n);
      DetachLeftInOrder(p, n);
    } else {
      DetachRight(p, n);
    }
  }

  /** Removing from an empty tree or removing an absent key changes nothing. */
  lemma RemAbsent<V>(s: AvlState<V>, k: int)
    requires Wf(s) && k !in KeySet(s.top)
    ensures Rem(s, k) == (s, None)
  {
    if s.size != 0 {
      DiveFinds(s.top, k);
    }
  }

  /** Re-bracketing the pieces around a node taken out of a path. */
  lemma Regroup4<T>(a: seq<T>, l: seq<T>, e: seq<T>, r: seq<T>, z: seq<T>)
    ensures a + (l + e + r) + z == (a + l) + e + (r + z)
    ensures a + l + r + z == (a + l) + (r + z)
  {
  }

  /**
   * Unlinking a node from a valid tree gives a valid tree listing the old
   * entries without the node's key.
   */
  lemma RemoveAtNode<V>(p: seq<Frame<V>>, n: Tree<V>)
    requires n.Node? && Valid(Plug(p, n))
    ensures Valid(Detach(p, n))
    ensures InOrder(Detach(p, n)) == RemoveKey(InOrder(Plug(p, n)), n.key)
    ensures |InOrder(Detach(p, n))| + 1 == |InOrder(Plug(p, n))|
  {
    InOrderPlug(p, n);
    DetachSpec(p, n);
    var a := Before(p) + InOrder(n.lc);
    var b := InOrder(n.rc) + After(p);
    Regroup4(Before(p), InOrder(n.lc), [n.Item()], InOrder(n.rc), After(p));
    assert InOrder(Plug(p, n)) == a + [n.Item()] + b;
    assert InOrder(Detach(p, n)) == a + b;
    IncreasingSplit(a, n.Item(), b);
    IncreasingJoin(a, b, n.key);
    RemoveBetween(a, n.Item(), b);
  }

  /**
   * Removing a present key returns the node stored under it, detached; the
   * size drops by one, the generation moves on, the tree stays valid and its
   * entries are the old ones without that key.
   */
  lemma RemPresent<V>(s: AvlState<V>, k: int)
    requires Wf(s) && k in KeySet(s.top)
    ensures Wf(Rem(s, k).0)
    ensures Rem(s, k).1.Some?
    ensures Entry(k, Rem(s, k).1.value.val) in InOrder(s.top)
    ensures Rem(s, k).0.size == s.size - 1 && Rem(s, k).0.gen == s.gen + 1
    ensures InOrder(Rem(s, k).0.top) == RemoveKey(InOrder(s.top), k)
    ensures KeySet(Rem(s, k).0.top) == KeySet(s.top) - {k}
  {
    assert s.size != 0;
    var d := Dive(s.top, k);
    DiveFinds(s.top, k);
    var n := d.focus;
    assert Rem(s, k).0.top == Detach(d.path, n);
    RemoveAtNode(d.path, n);
    InOrderPlug(d.path, n);
    assert n.Item() in InOrder(n);
    RemoveKeyKeys(InOrder(s.top), k);
  }
}
