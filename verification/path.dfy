/**
 * The path stack of the balancing engine, as a zipper.
 *
 * `dive`/`divek` push every node they visit; `rebalance` pops them all,
 * relinking each popped node over the (possibly rotated) subtree below it.
 * A `Frame` is one stacked node together with the child the walk did NOT
 * take (`sib`); the child it took is the hole below. A `Path` lists frames
 * with the TOP of the stack first, so `p[0]` is the deepest stacked node
 * and `p[|p| - 1]` the root.
 *
 * A frame keeps the cached height its node had when pushed. `rebalance`
 * refreshes every height before reading it, so the result never depends on
 * these stale values; they matter only to `Plug`, which rebuilds the tree as
 * it stood.
 */
module Path {
  import opened AvlTree
  import opened Rotation

  datatype Frame<V> =
    | WentLeft(key: int, val: V, sib: Tree<V>, height: nat)
    | WentRight(sib: Tree<V>, key: int, val: V, height: nat)

  /** The node a frame stands for, with `t` in the hole. */
  function Fill<V>(f: Frame<V>, t: Tree<V>): Tree<V>
  {
    match f
    case WentLeft(k, v, s, h) => Node(t, k, v, s, h)
    case WentRight(s, k, v, h) => Node(s, k, v, t, h)
  }

  /** Rebuild the whole tree around `t`, touching no cached height. */
  function Plug<V>(p: seq<Frame<V>>, t: Tree<V>): Tree<V>
    decreases |p|
  {
    if |p| == 0 then t else Plug(p[1..], Fill(p[0], t))
  }

  /**
   * One iteration of `rebalance`'s loop: the popped node is linked over the
   * repaired subtree below it, its height is refreshed (`update_height`), and
   * `find_case` decides the rotation applied through the parent's link.
   */
  function Step<V>(f: Frame<V>, t: Tree<V>): (r: Tree<V>)
    ensures r.Node? && InOrder(r) == InOrder(Fill(f, t))
  {
    match f
    case WentLeft(k, v, s, _) => Fix(Mk(t, k, v, s))
    case WentRight(s, k, v, _) => Fix(Mk(s, k, v, t))
  }

  /**
   * `rebalance`: pop the whole path, repairing every ancestor on the way up.
   * There is no early exit: the loop only ends when the stack is empty.
   */
  function Rebalance<V>(p: seq<Frame<V>>, t: Tree<V>): (r: Tree<V>)
    ensures |p| > 0 ==> r.Node?
    decreases |p|
  {
    if |p| == 0 then t else Rebalance(p[1..], Step(p[0], t))
  }

  /** The entries a path places before its hole in key order. */
  function Before<V>(p: seq<Frame<V>>): seq<Entry<V>>
    decreases |p|
  {
    if |p| == 0 then []
    else Before(p[1..]) +
         (if p[0].WentRight? then InOrder(p[0].sib) + [Entry(p[0].key, p[0].val)] else [])
  }

  /** The entries a path places after its hole in key order. */
  function After<V>(p: seq<Frame<V>>): seq<Entry<V>>
    decreases |p|
  {
    if |p| == 0 then []
    else (if p[0].WentLeft? then [Entry(p[0].key, p[0].val)] + InOrder(p[0].sib) else []) +
         After(p[1..])
  }

  /** Every frame lies on the side of `k` the walk took at it. */
  predicate Heading<V>(p: seq<Frame<V>>, k: int)
  {
    forall i :: 0 <= i < |p| ==>
      (p[i].WentLeft? ==> k < p[i].key) && (p[i].WentRight? ==> p[i].key < k)
  }

  // ---------------------------------------------------------------------
  // Zipper algebra
  // ---------------------------------------------------------------------

  lemma {:induction false} PlugAppend<V>(a: seq<Frame<V>>, b: seq<Frame<V>>, t: Tree<V>)
    ensures Plug(a + b, t) == Plug(b, Plug(a, t))
    decreases |a|
  {
    if |a| == 0 {
      assert a + b == b;
    } else {
      assert (a + b)[1..] == a[1..] + b;
      PlugAppend(a[1..], b, Fill(a[0], t));
    }
  }

  lemma {:induction false} RebalanceAppend<V>(a: seq<Frame<V>>, b: seq<Frame<V>>, t: Tree<V>)
    ensures Rebalance(a + b, t) == Rebalance(b, Rebalance(a, t))
    decreases |a|
  {
    if |a| == 0 {
      assert a + b == b;
    } else {
      assert (a + b)[1..] == a[1..] + b;
      RebalanceAppend(a[1..], b, Step(a[0], t));
    }
  }

  lemma {:induction false} BeforeAfterAppend<V>(a: seq<Frame<V>>, b: seq<Frame<V>>)
    ensures Before(a + b) == Before(b) + Before(a)
    ensures After(a + b) == After(a) + After(b)
    decreases |a|
  {
    if |a| == 0 {
      assert a + b == b;
    } else {
      assert (a + b)[1..] == a[1..] + b && (a + b)[0] == a[0];
      BeforeAfterAppend(a[1..], b);
      var x := if a[0].WentRight? then InOrder(a[0].sib) + [Entry(a[0].key, a[0].val)] else [];
      var y := if a[0].WentLeft? then [Entry(a[0].key, a[0].val)] + InOrder(a[0].sib) else [];
      assert Before(a + b) == Before(a[1..] + b) + x;
      Assoc(Before(b), Before(a[1..]), x);
      assert After(a + b) == y + After(a[1..] + b);
      Assoc(y, After(a[1..]), After(b));
    }
  }

  /** The entries a single frame puts before its hole. */
  function FrameBefore<V>(f: Frame<V>): seq<Entry<V>>
  {
    if f.WentRight? then InOrder(f.sib) + [Entry(f.key, f.val)] else []
  }

  /** The entries a single frame puts after its hole. */
  function FrameAfter<V>(f: Frame<V>): seq<Entry<V>>
  {
    if f.WentLeft? then [Entry(f.key, f.val)] + InOrder(f.sib) else []
  }

  lemma FillInOrder<V>(f: Frame<V>, t: Tree<V>)
    ensures InOrder(Fill(f, t)) == FrameBefore(f) + InOrder(t) + FrameAfter(f)
  {
  }

  lemma FrameSplit<V>(p: seq<Frame<V>>)
    requires |p| > 0
    ensures Before(p) == Before(p[1..]) + FrameBefore(p[0])
    ensures After(p) == FrameAfter(p[0]) + After(p[1..])
  {
  }

  /** The tree rebuilt around `t` lists the path's entries on either side of `t`. */
  lemma {:induction false} InOrderPlug<V>(p: seq<Frame<V>>, t: Tree<V>)
    ensures InOrder(Plug(p, t)) == Before(p) + InOrder(t) + After(p)
    decreases |p|
  {
    if |p| > 0 {
      var f := p[0];
      var u := Fill(f, t);
      assert Plug(p, t) == Plug(p[1..], u);
      InOrderPlug(p[1..], u);
      FillInOrder(f, t);
      FrameSplit(p);
      Widen(Before(p[1..]), FrameBefore(f), InOrder(t), FrameAfter(f), After(p[1..]));
    }
  }

  /** Rebalancing never reorders: the result lists what the rebuilt tree does. */
  lemma {:induction false} InOrderRebalance<V>(p: seq<Frame<V>>, t: Tree<V>)
    ensures InOrder(Rebalance(p, t)) == Before(p) + InOrder(t) + After(p)
    decreases |p|
  {
    if |p| > 0 {
      var f := p[0];
      var u := Step(f, t);
      assert Rebalance(p, t) == Rebalance(p[1..], u);
      InOrderRebalance(p[1..], u);
      FillInOrder(f, t);
      FrameSplit(p);
      Widen(Before(p[1..]), FrameBefore(f), InOrder(t), FrameAfter(f), After(p[1..]));
    }
  }

  /** Rebalancing never reads the cached height a frame was stacked with. */
  lemma RebalanceFrameHeight<V>(a: seq<Frame<V>>, f: Frame<V>, g: Frame<V>, b: seq<Frame<V>>, t: Tree<V>)
    requires f.WentLeft? == g.WentLeft? && f.key == g.key && f.val == g.val && f.sib == g.sib
    ensures Rebalance(a + ([f] + b), t) == Rebalance(a + ([g] + b), t)
  {
    RebalanceAppend(a, [f] + b, t);
    RebalanceAppend(a, [g] + b, t);
    var x := Rebalance(a, t);
    assert ([f] + b)[1..] == b == ([g] + b)[1..];
    assert Step(f, x) == Step(g, x);
  }

  /** Every subtree of an ordered tree is ordered. */
  lemma OrderedFocus<V>(p: seq<Frame<V>>, t: Tree<V>)
    requires Ordered(Plug(p, t))
    ensures Ordered(t)
  {
    InOrderPlug(p, t);
    var s := InOrder(Plug(p, t));
    var i := |Before(p)|;
    IncreasingSub(s, i, i + |InOrder(t)|);
    assert s[i..i + |InOrder(t)|] == InOrder(t);
  }

  /** A tree is at least as high as any path into it is long, plus what hangs below. */
  lemma {:induction false} PlugHeight<V>(p: seq<Frame<V>>, t: Tree<V>)
    ensures Height(Plug(p, t)) >= |p| + Height(t)
    decreases |p|
  {
    if |p| > 0 {
      PlugHeight(p[1..], Fill(p[0], t));
    }
  }

  // ---------------------------------------------------------------------
  // The walk down: `dive` / `divek`
  // ---------------------------------------------------------------------

  /** The outcome of `dive`: DFOUND, DLEFT, DRIGHT, and the empty tree. */
  datatype DiveStatus = Empty | Found | MissingLeft | MissingRight

  /**
   * The stack `dive` leaves: `path` holds the visited nodes above `focus`.
   * When the key is found, `focus` is the matching node (the top of the C
   * stack); otherwise `focus` is the empty slot and the top of the C stack
   * is `path[0]`, the node whose child is missing.
   */
  datatype Dived<V> = Dived(status: DiveStatus, path: seq<Frame<V>>, focus: Tree<V>)

  /**
   * `dive`/`divek`: walk from the root comparing `k` with each node,
   * stacking every node visited, until the key matches or the child to
   * follow is absent. The stack never holds more nodes than the tree is high.
   */
  function Dive<V>(t: Tree<V>, k: int): (d: Dived<V>)
    ensures Plug(d.path, d.focus) == t
    ensures d.status.Empty? <==> t.Nil?
    ensures d.status.Empty? ==> d.path == [] && d.focus.Nil?
    ensures d.status.Found? ==> d.focus.Node? && d.focus.key == k
    ensures d.status.MissingLeft? ==>
              d.focus.Nil? && |d.path| > 0 && d.path[0].WentLeft? && k < d.path[0].key
    ensures d.status.MissingRight? ==>
              d.focus.Nil? && |d.path| > 0 && d.path[0].WentRight? && d.path[0].key < k
    ensures Heading(d.path, k)
    ensures |d.path| + (if d.status.Found? then 1 else 0) <= Height(t)
    decreases t
  {
    if t.Nil? then Dived(Empty, [], Nil)
    else
      var c := Compare(k, t.key);
      if c < 0 then
        var f := WentLeft(t.key, t.val, t.rc, t.height);
        if t.lc.Nil? then Dived(MissingLeft, [f], Nil)
        else
          var d := Dive(t.lc, k);
          PlugAppend(d.path, [f], d.focus);
          Dived(d.status, d.path + [f], d.focus)
      else if c > 0 then
        var f := WentRight(t.lc, t.key, t.val, t.height);
        if t.rc.Nil? then Dived(MissingRight, [f], Nil)
        else
          var d := Dive(t.rc, k);
          PlugAppend(d.path, [f], d.focus);
          Dived(d.status, d.path + [f], d.focus)
      else Dived(Found, [], t)
  }

  /** Every entry the walk puts before the hole is below `k`. */
  lemma {:induction false} DiveBelow<V>(t: Tree<V>, k: int)
    requires Ordered(t)
    ensures AllBelow(Before(Dive(t, k).path), k)
    decreases t
  {
    if t.Node? {
      OrderedNode(t);
      if k < t.key && t.lc.Node? {
        var f := WentLeft(t.key, t.val, t.rc, t.height);
        var d := Dive(t.lc, k);
        assert Dive(t, k).path == d.path + [f];
        DiveBelow(t.lc, k);
        BeforeAfterAppend(d.path, [f]);
        assert Before([f]) == [];
        assert Before(d.path + [f]) == Before(d.path);
      } else if k > t.key {
        var f := WentRight(t.lc, t.key, t.val, t.height);
        assert Before([f]) == InOrder(t.lc) + [t.Item()];
        assert AllBelow(Before([f]), k);
        if t.rc.Node? {
          var d := Dive(t.rc, k);
          assert Dive(t, k).path == d.path + [f];
          DiveBelow(t.rc, k);
          BeforeAfterAppend(d.path, [f]);
          AllBelowConcat(Before([f]), Before(d.path), k);
        }
      }
    }
  }

  /** Every entry the walk puts after the hole is above `k`. */
  lemma {:induction false} DiveAbove<V>(t: Tree<V>, k: int)
    requires Ordered(t)
    ensures AllAbove(After(Dive(t, k).path), k)
    decreases t
  {
    if t.Node? {
      OrderedNode(t);
      if k < t.key {
        var f := WentLeft(t.key, t.val, t.rc, t.height);
        assert After([f]) == [t.Item()] + InOrder(t.rc);
        assert AllAbove(After([f]), k);
        if t.lc.Node? {
          var d := Dive(t.lc, k);
          assert Dive(t, k).path == d.path + [f];
          DiveAbove(t.lc, k);
          BeforeAfterAppend(d.path, [f]);
          AllAboveConcat(After(d.path), After([f]), k);
        }
      } else if k > t.key && t.rc.Node? {
        var f := WentRight(t.lc, t.key, t.val, t.height);
        var d := Dive(t.rc, k);
        assert Dive(t, k).path == d.path + [f];
        DiveAbove(t.rc, k);
        BeforeAfterAppend(d.path, [f]);
        assert After([f]) == [];
        assert After(d.path + [f]) == After(d.path);
      }
    }
  }

  /**
   * On an ordered tree the walk splits the tree's entries at `k`: everything
   * the path puts before the hole is below `k`, everything after it above.
   */
  lemma DiveSplits<V>(t: Tree<V>, k: int)
    requires Ordered(t)
    ensures AllBelow(Before(Dive(t, k).path), k) && AllAbove(After(Dive(t, k).path), k)
  {
    DiveBelow(t, k);
    DiveAbove(t, k);
  }

  /** On an ordered tree the walk finds `k` exactly when it is stored. */
  lemma {:induction false} DiveFinds<V>(t: Tree<V>, k: int)
    requires Ordered(t)
    ensures Dive(t, k).status.Found? <==> k in KeySet(t)
    decreases t
  {
    if t.Node? {
      OrderedNode(t);
      KeysOfConcat(InOrder(t.lc) + [t.Item()], InOrder(t.rc));
      KeysOfConcat(InOrder(t.lc), [t.Item()]);
      assert KeySet(t) == KeySet(t.lc) + {t.key} + KeySet(t.rc);
      if k < t.key {
        BelowNotIn(InOrder(t.rc), k);
        if t.lc.Node? {
          DiveFinds(t.lc, k);
        }
      } else if k > t.key {
        BelowNotIn(InOrder(t.lc), k);
        if t.rc.Node? {
          DiveFinds(t.rc, k);
        }
      }
    }
  }

  // ---------------------------------------------------------------------
  // The walks to the replacement node of a removal
  // ---------------------------------------------------------------------

  /**
   * From `t`, follow right children to the rightmost node, stacking every
   * node passed (inline_avl.h:500-510, avl.c:256-265). That node has no
   * right child and holds the largest key of `t`.
   */
  function RightmostPath<V>(t: Tree<V>): (r: (seq<Frame<V>>, Tree<V>))
    requires t.Node?
    ensures r.1.Node? && r.1.rc.Nil?
    ensures Plug(r.0, r.1) == t
    ensures forall i :: 0 <= i < |r.0| ==> r.0[i].WentRight?
    ensures After(r.0) == []
    ensures |r.0| < Height(t)
    decreases t
  {
    if t.rc.Nil? then ([], t)
    else
      var f := WentRight(t.lc, t.key, t.val, t.height);
      var r := RightmostPath(t.rc);
      PlugAppend(r.0, [f], r.1);
      BeforeAfterAppend(r.0, [f]);
      (r.0 + [f], r.1)
  }

  /** The mirror walk to the leftmost node (avl.c:266-275). */
  function LeftmostPath<V>(t: Tree<V>): (r: (seq<Frame<V>>, Tree<V>))
    requires t.Node?
    ensures r.1.Node? && r.1.lc.Nil?
    ensures Plug(r.0, r.1) == t
    ensures forall i :: 0 <= i < |r.0| ==> r.0[i].WentLeft?
    ensures Before(r.0) == []
    ensures |r.0| < Height(t)
    decreases t
  {
    if t.lc.Nil? then ([], t)
    else
      var f := WentLeft(t.key, t.val, t.rc, t.height);
      var r := LeftmostPath(t.lc);
      PlugAppend(r.0, [f], r.1);
      BeforeAfterAppend(r.0, [f]);
      (r.0 + [f], r.1)
  }

  // ---------------------------------------------------------------------
  // The retrace restores the AVL property
  // ---------------------------------------------------------------------

  /**
   * A path around a hole of height `h` whose every sibling is an AVL tree
   * and which would be balanced everywhere with a subtree of height `h` in
   * the hole. Only siblings are read, never keys or the frames' cached
   * heights.
   */
  ghost predicate PathOk<V>(p: seq<Frame<V>>, h: nat)
    decreases |p|
  {
    |p| == 0 ||
    (Avl(p[0].sib) && -1 <= h - Height(p[0].sib) <= 1 &&
     PathOk(p[1..], 1 + Max(h, Height(p[0].sib))))
  }

  /** The height the whole tree has when a subtree of height `h` fills the hole. */
  ghost function TopHeight<V>(p: seq<Frame<V>>, h: nat): nat
    decreases |p|
  {
    if |p| == 0 then h else TopHeight(p[1..], 1 + Max(h, Height(p[0].sib)))
  }

  /** A valid tree, taken apart at any point, gives an AVL hole and context. */
  lemma {:induction false} AvlPlug<V>(p: seq<Frame<V>>, t: Tree<V>)
    requires Avl(Plug(p, t))
    ensures Avl(t) && PathOk(p, Height(t))
    decreases |p|
  {
    if |p| > 0 {
      AvlPlug(p[1..], Fill(p[0], t));
    }
  }

  lemma {:induction false} PathOkAppend<V>(a: seq<Frame<V>>, b: seq<Frame<V>>, h: nat)
    ensures PathOk(a + b, h) <==> PathOk(a, h) && PathOk(b, TopHeight(a, h))
    decreases |a|
  {
    if |a| == 0 {
      assert a + b == b;
    } else {
      assert (a + b)[1..] == a[1..] + b;
      PathOkAppend(a[1..], b, 1 + Max(h, Height(a[0].sib)));
    }
  }

  /** One retrace step over an AVL context frame keeps the hole's height within one. */
  lemma StepAvl<V>(f: Frame<V>, h: nat, t: Tree<V>)
    requires Avl(f.sib) && -1 <= h - Height(f.sib) <= 1
    requires Avl(t) && -1 <= Height(t) - h <= 1
    ensures Avl(Step(f, t))
    ensures -1 <= Height(Step(f, t)) - (1 + Max(h, Height(f.sib))) <= 1
  {
    var s := f.sib;
    var n := if f.WentLeft? then Mk(t, f.key, f.val, s) else Mk(s, f.key, f.val, t);
    assert Step(f, t) == Fix(n);
    FixAvl(n);
  }

  /**
   * The retrace repairs any change of at most one level in the hole: when
   * the hole of an AVL context receives an AVL subtree whose height is off
   * by at most one, popping the whole path yields an AVL tree whose height
   * is off by at most one from the original.
   */
  lemma {:induction false} RebalanceAvl<V>(p: seq<Frame<V>>, h: nat, t: Tree<V>)
    requires PathOk(p, h) && Avl(t) && -1 <= Height(t) - h <= 1
    ensures Avl(Rebalance(p, t))
    ensures -1 <= Height(Rebalance(p, t)) - TopHeight(p, h) <= 1
    decreases |p|
  {
    if |p| > 0 {
      var h' := 1 + Max(h, Height(p[0].sib));
      assert PathOk(p[1..], h');
      StepAvl(p[0], h, t);
      RebalanceAvl(p[1..], h', Step(p[0], t));
      assert Rebalance(p, t) == Rebalance(p[1..], Step(p[0], t));
      assert TopHeight(p, h) == TopHeight(p[1..], h');
    }
  }
}
