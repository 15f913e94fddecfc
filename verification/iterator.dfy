/**
 * The ordered iterator of avl_it.c: a cursor holding its own bounded stack
 * (astack.h) with the spine still to be visited, and a snapshot of the
 * tree's generation counter.
 *
 * A forward cursor keeps the left spine of what is left to visit: popping a
 * node yields it and pushes the left spine of its right subtree. A backward
 * cursor is the mirror image.
 */
module Iterator {
  import opened Optional
  import opened AvlTree
  import opened BoundedStack
  import InlineAvl

  /** `struct avl_it`: the spine stack, the generation snapshot and the direction. */
  datatype AvlIt<V> = AvlIt(stack: AStack<Tree<V>>, gen: nat, backward: bool)

  /** What `avl_it_next` reports: -1, 1, or 0 with the key and element written out. */
  datatype NextResult<V> = Invalidated | End | Yielded(entry: Entry<V>)

  /** The integer `avl_it_next` returns for each outcome. */
  function Code<V>(r: NextResult<V>): (c: int)
    ensures c == -1 <==> r.Invalidated?
    ensures c == 1 <==> r.End?
    ensures c == 0 <==> r.Yielded?
  {
    match r
    case Invalidated => -1
    case End => 1
    case Yielded(_) => 0
  }

  /** The child a spine walk follows: left going forward, right going backward. */
  function Toward<V>(n: Tree<V>, backward: bool): Tree<V>
    requires n.Node?
  {
    if backward then n.rc else n.lc
  }

  /** The child whose subtree is visited right after the node itself. */
  function Away<V>(n: Tree<V>, backward: bool): Tree<V>
    requires n.Node?
  {
    if backward then n.lc else n.rc
  }

  function Reverse<T>(s: seq<T>): (r: seq<T>)
    ensures |r| == |s|
    ensures forall i :: 0 <= i < |s| ==> r[i] == s[|s| - 1 - i]
    decreases |s|
  {
    if |s| == 0 then [] else Reverse(s[1..]) + [s[0]]
  }

  /** The entries of `t` in the order a cursor in the given direction visits them. */
  function Walk<V>(t: Tree<V>, backward: bool): seq<Entry<V>>
  {
    if backward then Reverse(InOrder(t)) else InOrder(t)
  }

  /** A stacked node still owes itself and then its far subtree. */
  function Owed<V>(n: Tree<V>, backward: bool): seq<Entry<V>>
  {
    if n.Nil? then [] else [n.Item()] + Walk(Away(n, backward), backward)
  }

  /** Everything a stack of spine nodes still owes, top of the stack first. */
  function Rest<V>(data: seq<Tree<V>>, backward: bool): seq<Entry<V>>
    decreases |data|
  {
    if |data| == 0 then []
    else Owed(data[|data| - 1], backward) + Rest(data[..|data| - 1], backward)
  }

  /**
   * The stack holds only nodes, and the spine below each slot still fits:
   * the node in slot `i` is at most `maxSz - i` high.
   */
  predicate Room<V>(s: AStack<Tree<V>>)
  {
    forall i :: 0 <= i < |s.data| ==> s.data[i].Node? && i + Height(s.data[i]) <= s.maxSz
  }

  /**
   * The loops at avl_it.c:65-74 and :90-93: push `t` and every node down its
   * spine toward the near side.
   */
  function PushSpine<V>(s: AStack<Tree<V>>, t: Tree<V>, backward: bool): (r: AStack<Tree<V>>)
    requires Room(s) && s.Size() + Height(t) <= s.maxSz
    ensures Room(r) && r.maxSz == s.maxSz
    ensures Rest(r.data, backward) == Walk(t, backward) + Rest(s.data, backward)
    decreases t
  {
    if t.Nil? then s
    else
      var s' := Push(s, t);
      PushOwes(s, t, backward);
      WalkSplit(t, backward);
      var r := PushSpine(s', Toward(t, backward), backward);
      Assoc(Walk(Toward(t, backward), backward), Owed(t, backward), Rest(s.data, backward));
      r
  }

  /** Pushing a node that fits keeps room and adds what the node owes on top. */
  lemma PushOwes<V>(s: AStack<Tree<V>>, t: Tree<V>, backward: bool)
    requires Room(s) && t.Node? && s.Size() + Height(t) <= s.maxSz
    ensures Room(Push(s, t))
    ensures Rest(Push(s, t).data, backward) == Owed(t, backward) + Rest(s.data, backward)
    ensures Push(s, t).Size() + Height(Toward(t, backward)) <= s.maxSz
  {
    var d := Push(s, t).data;
    assert d[|d| - 1] == t && d[..|d| - 1] == s.data;
  }

  /** A subtree is walked as its near side, then the node, then its far side. */
  lemma WalkSplit<V>(t: Tree<V>, backward: bool)
    requires t.Node?
    ensures Walk(t, backward) == Walk(Toward(t, backward), backward) + Owed(t, backward)
  {
    if backward {
      ReverseConcat(InOrder(t.lc) + [t.Item()], InOrder(t.rc));
      ReverseConcat(InOrder(t.lc), [t.Item()]);
    }
  }

  lemma ReverseConcat<T>(a: seq<T>, b: seq<T>)
    ensures Reverse(a + b) == Reverse(b) + Reverse(a)
  {
  }

  /**
   * `avl_it_start` over a stack buffer of `bufferSize` bytes: snapshot the
   * generation and push the root's near spine. The buffer must be able to
   * hold as many slots as the tree is high, since no push checks room.
   */
  function Start<V>(tree: InlineAvl.AvlState<V>, backward: bool, bufferSize: nat, ptrBytes: nat): (it: AvlIt<V>)
    requires ptrBytes > 0 && Height(tree.top) * ptrBytes <= bufferSize
    ensures it.gen == tree.gen && it.backward == backward && Room(it.stack)
    ensures Rest(it.stack.data, backward) == Walk(tree.top, backward)
  {
    var s := Init(bufferSize, ptrBytes);
    CapacityCovers(Height(tree.top), s.maxSz, ptrBytes, bufferSize);
    AvlIt(PushSpine(s, tree.top, backward), tree.gen, backward)
  }

  lemma CapacityCovers(h: nat, slots: nat, ptrBytes: nat, bufferSize: nat)
    requires ptrBytes > 0 && h * ptrBytes <= bufferSize < (slots + 1) * ptrBytes
    ensures h <= slots
  {
  }

  /**
   * `avl_it_next`: -1 without advancing once the tree's generation differs
   * from the snapshot; 1 once the stack is empty; otherwise the popped node
   * is yielded and the near spine of its far subtree is pushed.
   */
  function Next<V>(it: AvlIt<V>, tree: InlineAvl.AvlState<V>): (r: (NextResult<V>, AvlIt<V>))
    requires Room(it.stack)
    ensures Room(r.1.stack) && r.1.gen == it.gen && r.1.backward == it.backward
    ensures r.0.Invalidated? <==> it.gen != tree.gen
    ensures r.0.Invalidated? ==> r.1 == it
    ensures r.0.End? <==> it.gen == tree.gen && it.stack.Size() == 0
    ensures r.0.End? ==> r.1 == it
    ensures r.0.Yielded? ==>
              Rest(it.stack.data, it.backward) == [r.0.entry] + Rest(r.1.stack.data, it.backward)
  {
    if it.gen != tree.gen then (Invalidated, it)
    else
      var (top, s) := Pop(it.stack);
      if top.None? then (End, it)
      else
        var n := top.value;
        assert n == it.stack.data[|it.stack.data| - 1] && s.data == it.stack.data[..|it.stack.data| - 1];
        assert Height(Away(n, it.backward)) < Height(n);
        var s' := PushSpine(s, Away(n, it.backward), it.backward);
        (Yielded(n.Item()), AvlIt(s', it.gen, it.backward))
  }

  /**
   * A cursor started on a tree and advanced until it reports the end,
   * with no mutation in between, yields the whole tree in its direction.
   */
  method Drain<V>(tree: InlineAvl.AvlState<V>, backward: bool, bufferSize: nat, ptrBytes: nat)
    returns (out: seq<Entry<V>>)
    requires ptrBytes > 0 && Height(tree.top) * ptrBytes <= bufferSize
    ensures out == Walk(tree.top, backward)
    ensures Ordered(tree.top) ==> if backward then Descending(out) else Increasing(out)
  {
    var it := Start(tree, backward, bufferSize, ptrBytes);
    out := [];
    while true
      invariant Room(it.stack) && it.gen == tree.gen && it.backward == backward
      invariant out + Rest(it.stack.data, backward) == Walk(tree.top, backward)
      decreases |Rest(it.stack.data, backward)|
    {
      var r := Next(it, tree);
      if r.0.End? {
        assert it.stack.data == [];
        break;
      }
      Assoc(out, [r.0.entry], Rest(r.1.stack.data, backward));
      out := out + [r.0.entry];
      it := r.1;
    }
    if Ordered(tree.top) {
      WalkOrder(tree.top);
    }
  }

  /** Keys strictly decrease along the sequence. */
  predicate Descending<V>(s: seq<Entry<V>>)
  {
    forall i, j :: 0 <= i < j < |s| ==> s[i].key > s[j].key
  }

  /**
   * On an ordered tree a forward walk yields strictly ascending keys and a
   * backward walk strictly descending ones; either way each stored key comes
   * exactly once.
   */
  lemma WalkOrder<V>(t: Tree<V>)
    requires Ordered(t)
    ensures Increasing(Walk(t, false)) && Descending(Walk(t, true))
    ensures KeysOf(Walk(t, false)) == KeySet(t) && |Walk(t, false)| == |KeySet(t)|
  {
    KeysOfCount(InOrder(t));
  }

  /**
   * Any successful mutation moves the generation on, so a cursor taken
   * before it reports -1 on its next step (a fresh add, then a present
   * removal).
   */
  lemma MutationInvalidates<V>(it: AvlIt<V>, s: InlineAvl.AvlState<V>, k: int, v: V)
    requires Room(it.stack) && it.gen == s.gen
    ensures k !in KeySet(s.top) && InlineAvl.Wf(s) ==> Next(it, InlineAvl.Add(s, k, v).0).0.Invalidated?
    ensures k in KeySet(s.top) && InlineAvl.Wf(s) ==> Next(it, InlineAvl.Rem(s, k).0).0.Invalidated?
  {
    if InlineAvl.Wf(s) {
      if k !in KeySet(s.top) {
        InlineAvl.AddFresh(s, k, v);
      } else {
        InlineAvl.RemPresent(s, k);
      }
    }
  }
}
