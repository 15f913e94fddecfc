/**
 * The node layout shared by both generations of the engine, and the
 * structural invariants every operation must keep.
 *
 * A node carries its two children, an integer key (the comparator of the
 * intrusive version is integer three-way comparison), the caller's element
 * (`elem` in avl.c; in the intrusive version, the object the node is
 * embedded in) and a CACHED height. No balance factor is stored: balance is
 * derived on demand from the children's cached heights.
 */
module AvlTree {

  /** A key together with the element stored under it. */
  datatype Entry<V> = Entry(key: int, val: V)

  datatype Tree<V> =
    | Nil
    | Node(lc: Tree<V>, key: int, val: V, rc: Tree<V>, height: nat)
  {
    /** The key and element of a node, i.e. what a node pointer identifies. */
    function Item(): Entry<V>
      requires Node?
    {
      Entry(key, val)
    }
  }

  /** Integer three-way comparison, the comparator of the tests' objects. */
  function Compare(a: int, b: int): (c: int)
    ensures c < 0 <==> a < b
    ensures c > 0 <==> a > b
  {
    if a < b then -1 else if a > b then 1 else 0
  }

  /** The larger height, preferring the right one on a tie (`update_height`). */
  function Max(hl: nat, hr: nat): nat
  {
    if hr > hl then hr else hl
  }

  /** `avl_node_height`: the cached height, 0 for the empty tree. */
  function Ht<V>(t: Tree<V>): (h: nat)
    ensures t.Nil? ==> h == 0
    ensures HeightsOk(t) ==> h == Height(t)
  {
    if t.Nil? then 0 else t.height
  }

  /** A node whose cached height has just been refreshed by `update_height`. */
  function Mk<V>(l: Tree<V>, k: int, v: V, r: Tree<V>): (n: Tree<V>)
    ensures n.Node? && n.lc == l && n.key == k && n.val == v && n.rc == r
    ensures HeightsOk(l) && HeightsOk(r) ==> HeightsOk(n) && Height(n) == 1 + Max(Height(l), Height(r))
  {
    Node(l, k, v, r, 1 + Max(Ht(l), Ht(r)))
  }

  /** A freshly added node: no children and height 1 (inline_avl.h:395-397). */
  function Leaf<V>(k: int, v: V): Tree<V>
  {
    Node(Nil, k, v, Nil, 1)
  }

  /** `get_balance`: right cached height minus left cached height. */
  function Balance<V>(t: Tree<V>): (b: int)
    ensures t.Nil? ==> b == 0
    ensures HeightsOk(t) && t.Node? ==> b == Height(t.rc) - Height(t.lc)
    ensures Avl(t) ==> -1 <= b <= 1
  {
    if t.Nil? then 0 else Ht(t.rc) - Ht(t.lc)
  }

  /** The height of a tree as counted from its shape. */
  function Height<V>(t: Tree<V>): nat
  {
    if t.Nil? then 0 else 1 + Max(Height(t.lc), Height(t.rc))
  }

  /** Every cached height equals the structural height. */
  predicate HeightsOk<V>(t: Tree<V>)
  {
    t.Nil? || (HeightsOk(t.lc) && HeightsOk(t.rc) && t.height == Height(t))
  }

  /** The AVL property: at every node the subtree heights differ by at most 1. */
  predicate Balanced<V>(t: Tree<V>)
  {
    t.Nil? ||
    (Balanced(t.lc) && Balanced(t.rc) && -1 <= Height(t.rc) - Height(t.lc) <= 1)
  }

  /** The shape half of the invariant: heights cached correctly, and balanced. */
  predicate Avl<V>(t: Tree<V>)
  {
    HeightsOk(t) && Balanced(t)
  }

  /** The elements in key order as the tree is laid out (left, node, right). */
  function InOrder<V>(t: Tree<V>): seq<Entry<V>>
  {
    if t.Nil? then [] else InOrder(t.lc) + [t.Item()] + InOrder(t.rc)
  }

  /** The set of keys occurring in a sequence of entries. */
  function KeysOf<V>(s: seq<Entry<V>>): set<int>
  {
    if |s| == 0 then {} else {s[0].key} + KeysOf(s[1..])
  }

  /** The keys stored in a tree. */
  function KeySet<V>(t: Tree<V>): set<int>
  {
    KeysOf(InOrder(t))
  }

  /** Keys strictly increase along the sequence (so no key occurs twice). */
  predicate Increasing<V>(s: seq<Entry<V>>)
  {
    forall i, j :: 0 <= i < j < |s| ==> s[i].key < s[j].key
  }

  predicate AllBelow<V>(s: seq<Entry<V>>, k: int)
  {
    forall i :: 0 <= i < |s| ==> s[i].key < k
  }

  predicate AllAbove<V>(s: seq<Entry<V>>, k: int)
  {
    forall i :: 0 <= i < |s| ==> k < s[i].key
  }

  lemma AllBelowConcat<V>(a: seq<Entry<V>>, b: seq<Entry<V>>, k: int)
    requires AllBelow(a, k) && AllBelow(b, k)
    ensures AllBelow(a + b, k)
  {
  }

  lemma AllAboveConcat<V>(a: seq<Entry<V>>, b: seq<Entry<V>>, k: int)
    requires AllAbove(a, k) && AllAbove(b, k)
    ensures AllAbove(a + b, k)
  {
  }

  /** The ordering half of the invariant: the in-order walk is sorted. */
  predicate Ordered<V>(t: Tree<V>)
  {
    Increasing(InOrder(t))
  }

  /**
   * The textbook search-tree property, stated over whole subtrees: every key
   * on the left of a node is smaller than its key, every key on the right is
   * larger.
   */
  predicate Bst<V>(t: Tree<V>)
  {
    t.Nil? ||
    (Bst(t.lc) && Bst(t.rc) &&
     AllBelow(InOrder(t.lc), t.key) && AllAbove(InOrder(t.rc), t.key))
  }

  /** A tree the engine may be handed: AVL-shaped and ordered. */
  predicate Valid<V>(t: Tree<V>)
  {
    Avl(t) && Ordered(t)
  }

  // ---------------------------------------------------------------------
  // Facts about sequences of entries
  // ---------------------------------------------------------------------

  /** Re-bracketing a concatenation of three sequences. */
  lemma Assoc<T>(a: seq<T>, b: seq<T>, c: seq<T>)
    ensures a + (b + c) == (a + b) + c
  {
  }

  /** Moving the middle of a five-part concatenation outward. */
  lemma DropEmpty<T>(a: seq<T>, e: seq<T>, b: seq<T>)
    requires e == []
    ensures a + e + b == a + b
  {
  }

  lemma Widen<T>(a: seq<T>, b: seq<T>, c: seq<T>, d: seq<T>, e: seq<T>)
    ensures a + (b + c + d) + e == (a + b) + c + (d + e)
  {
  }

  lemma {:induction false} KeysOfConcat<V>(a: seq<Entry<V>>, b: seq<Entry<V>>)
    ensures KeysOf(a + b) == KeysOf(a) + KeysOf(b)
    decreases |a|
  {
    if |a| == 0 {
      assert a + b == b;
    } else {
      assert (a + b)[1..] == a[1..] + b;
      KeysOfConcat(a[1..], b);
    }
  }

  /** A key is in `KeysOf(s)` exactly when some entry of `s` carries it. */
  lemma {:induction false} KeysOfMember<V>(s: seq<Entry<V>>, k: int)
    ensures k in KeysOf(s) <==> exists i :: 0 <= i < |s| && s[i].key == k
    decreases |s|
  {
    if |s| > 0 {
      KeysOfMember(s[1..], k);
      if k in KeysOf(s[1..]) {
        var i :| 0 <= i < |s[1..]| && s[1..][i].key == k;
        assert s[i + 1].key == k;
      }
      if k != s[0].key && exists i :: 0 <= i < |s| && s[i].key == k {
        var i :| 0 <= i < |s| && s[i].key == k;
        assert s[1..][i - 1].key == k;
      }
    }
  }

  lemma BelowNotIn<V>(s: seq<Entry<V>>, k: int)
    requires AllBelow(s, k) || AllAbove(s, k)
    ensures k !in KeysOf(s)
  {
    KeysOfMember(s, k);
  }

  /** In a sorted sequence a key identifies its entry. */
  lemma EntryUnique<V>(s: seq<Entry<V>>, a: Entry<V>, b: Entry<V>)
    requires Increasing(s) && a in s && b in s && a.key == b.key
    ensures a == b
  {
    var i :| 0 <= i < |s| && s[i] == a;
    var j :| 0 <= j < |s| && s[j] == b;
    assert !(i < j) && !(j < i);
  }

  /** A sorted sequence carries as many distinct keys as it has entries. */
  lemma {:induction false} KeysOfCount<V>(s: seq<Entry<V>>)
    requires Increasing(s)
    ensures |KeysOf(s)| == |s|
    decreases |s|
  {
    if |s| > 0 {
      assert AllAbove(s[1..], s[0].key);
      BelowNotIn(s[1..], s[0].key);
      KeysOfCount(s[1..]);
    }
  }

  /**
   * Splitting a sorted sequence around one entry: the sequence is sorted
   * exactly when both sides are sorted and lie below and above the entry.
   */
  lemma IncreasingSplit<V>(a: seq<Entry<V>>, e: Entry<V>, b: seq<Entry<V>>)
    ensures Increasing(a + [e] + b) <==>
              Increasing(a) && Increasing(b) && AllBelow(a, e.key) && AllAbove(b, e.key)
  {
    if Increasing(a + [e] + b) {
      IncreasingParts(a, e, b);
    }
    if Increasing(a) && Increasing(b) && AllBelow(a, e.key) && AllAbove(b, e.key) {
      IncreasingAround(a, e, b);
    }
  }

  lemma IncreasingParts<V>(a: seq<Entry<V>>, e: Entry<V>, b: seq<Entry<V>>)
    requires Increasing(a + [e] + b)
    ensures Increasing(a) && Increasing(b) && AllBelow(a, e.key) && AllAbove(b, e.key)
  {
    var s := a + [e] + b;
    assert forall i :: 0 <= i < |a| ==> s[i] == a[i];
    assert s[|a|] == e;
    assert forall j :: 0 <= j < |b| ==> s[|a| + 1 + j] == b[j];
  }

  lemma IncreasingAround<V>(a: seq<Entry<V>>, e: Entry<V>, b: seq<Entry<V>>)
    requires Increasing(a) && Increasing(b) && AllBelow(a, e.key) && AllAbove(b, e.key)
    ensures Increasing(a + [e] + b)
  {
    var s := a + [e] + b;
    forall i, j | 0 <= i < j < |s|
      ensures s[i].key < s[j].key
    {
      if j < |a| {
        assert s[i] == a[i] && s[j] == a[j];
      } else if j == |a| {
        assert s[i] == a[i];
      } else if i > |a| {
        assert s[i] == b[i - |a| - 1] && s[j] == b[j - |a| - 1];
      } else if i == |a| {
        assert s[j] == b[j - |a| - 1];
      } else {
        assert s[i] == a[i] && s[j] == b[j - |a| - 1];
      }
    }
  }

  /** Sortedness of a concatenation with no entry in between. */
  lemma IncreasingJoin<V>(a: seq<Entry<V>>, b: seq<Entry<V>>, k: int)
    requires Increasing(a) && Increasing(b) && AllBelow(a, k) && AllAbove(b, k)
    ensures Increasing(a + b)
  {
    var s := a + b;
    forall i, j | 0 <= i < j < |s|
      ensures s[i].key < s[j].key
    {
      if j < |a| {
        assert s[i] == a[i] && s[j] == a[j];
      } else if i >= |a| {
        assert s[i] == b[i - |a|] && s[j] == b[j - |a|];
      } else {
        assert s[i] == a[i] && s[j] == b[j - |a|];
      }
    }
  }

  lemma IncreasingSub<V>(s: seq<Entry<V>>, i: nat, j: nat)
    requires Increasing(s) && i <= j <= |s|
    ensures Increasing(s[i..j])
  {
  }

  // ---------------------------------------------------------------------
  // Facts about trees
  // ---------------------------------------------------------------------

  /** An ordered node splits into ordered subtrees on either side of its key. */
  lemma OrderedNode<V>(t: Tree<V>)
    requires t.Node?
    ensures Ordered(t) <==>
              Ordered(t.lc) && Ordered(t.rc) &&
              AllBelow(InOrder(t.lc), t.key) && AllAbove(InOrder(t.rc), t.key)
  {
    IncreasingSplit(InOrder(t.lc), t.Item(), InOrder(t.rc));
  }

  /** The keys of a node are those of its subtrees plus its own. */
  lemma KeySetNode<V>(t: Tree<V>)
    requires t.Node?
    ensures KeySet(t) == KeySet(t.lc) + {t.key} + KeySet(t.rc)
  {
    KeysOfConcat(InOrder(t.lc) + [t.Item()], InOrder(t.rc));
    KeysOfConcat(InOrder(t.lc), [t.Item()]);
  }

  /** Only the empty tree has no keys. */
  lemma KeySetEmpty<V>(t: Tree<V>)
    ensures KeySet(t) == {} <==> t.Nil?
  {
    if t.Node? {
      KeySetNode(t);
    }
  }

  /**
   * On an ordered node a key below the node's own can only be stored on the
   * left, and a key above it only on the right.
   */
  lemma Descend<V>(t: Tree<V>, k: int)
    requires t.Node? && Ordered(t)
    ensures Ordered(t.lc) && Ordered(t.rc)
    ensures k < t.key ==> (k in KeySet(t) <==> k in KeySet(t.lc))
    ensures k > t.key ==> (k in KeySet(t) <==> k in KeySet(t.rc))
  {
    OrderedNode(t);
    KeySetNode(t);
    if k < t.key {
      assert AllAbove(InOrder(t.rc), k);
      BelowNotIn(InOrder(t.rc), k);
    } else if k > t.key {
      assert AllBelow(InOrder(t.lc), k);
      BelowNotIn(InOrder(t.lc), k);
    }
  }

  /** Whole-subtree ordering and a sorted in-order walk are the same property. */
  lemma {:induction false} BstIffOrdered<V>(t: Tree<V>)
    ensures Bst(t) <==> Ordered(t)
  {
    if t.Node? {
      BstIffOrdered(t.lc);
      BstIffOrdered(t.rc);
      OrderedNode(t);
    }
  }
  // ---------------------------------------------------------------------
  // Reference operations on key-sorted sequences: the ordered map the tree
  // stands for, written without any tree
  // ---------------------------------------------------------------------

  /** Insert an entry before the first entry with a larger key. */
  function InsertSorted<V>(s: seq<Entry<V>>, e: Entry<V>): seq<Entry<V>>
    decreases |s|
  {
    if |s| == 0 then [e]
    else if e.key < s[0].key then [e] + s
    else [s[0]] + InsertSorted(s[1..], e)
  }

  /** Drop every entry carrying key `k`. */
  function RemoveKey<V>(s: seq<Entry<V>>, k: int): seq<Entry<V>>
    decreases |s|
  {
    if |s| == 0 then []
    else if s[0].key == k then RemoveKey(s[1..], k)
    else [s[0]] + RemoveKey(s[1..], k)
  }

  /** Inserting adds exactly the new key to the key set. */
  lemma {:induction false} InsertSortedKeys<V>(s: seq<Entry<V>>, e: Entry<V>)
    ensures KeysOf(InsertSorted(s, e)) == KeysOf(s) + {e.key}
    decreases |s|
  {
    if |s| > 0 && e.key >= s[0].key {
      InsertSortedKeys(s[1..], e);
      assert ([s[0]] + InsertSorted(s[1..], e))[1..] == InsertSorted(s[1..], e);
    } else if |s| > 0 {
      assert ([e] + s)[1..] == s;
    }
  }

  /** Removing takes exactly the given key out of the key set. */
  lemma {:induction false} RemoveKeyKeys<V>(s: seq<Entry<V>>, k: int)
    ensures KeysOf(RemoveKey(s, k)) == KeysOf(s) - {k}
    decreases |s|
  {
    if |s| > 0 {
      RemoveKeyKeys(s[1..], k);
      if s[0].key != k {
        assert ([s[0]] + RemoveKey(s[1..], k))[1..] == RemoveKey(s[1..], k);
      }
    }
  }

  /** Inserting between a lower and a higher part lands exactly between them. */
  lemma {:induction false} InsertBetween<V>(a: seq<Entry<V>>, e: Entry<V>, b: seq<Entry<V>>)
    requires AllBelow(a, e.key) && AllAbove(b, e.key)
    ensures InsertSorted(a + b, e) == a + [e] + b
    decreases |a|
  {
    if |a| == 0 {
      assert a + b == b;
      if |b| > 0 {
        assert [e] + b == a + [e] + b;
      }
    } else {
      assert (a + b)[1..] == a[1..] + b;
      InsertBetween(a[1..], e, b);
      assert a + [e] + b == [a[0]] + (a[1..] + [e] + b);
    }
  }

  lemma {:induction false} RemoveKeyAbsent<V>(s: seq<Entry<V>>, k: int)
    requires AllBelow(s, k) || AllAbove(s, k)
    ensures RemoveKey(s, k) == s
    decreases |s|
  {
    if |s| > 0 {
      RemoveKeyAbsent(s[1..], k);
    }
  }

  lemma {:induction false} RemoveKeyConcat<V>(a: seq<Entry<V>>, b: seq<Entry<V>>, k: int)
    ensures RemoveKey(a + b, k) == RemoveKey(a, k) + RemoveKey(b, k)
    decreases |a|
  {
    if |a| == 0 {
      assert a + b == b;
    } else {
      assert (a + b)[1..] == a[1..] + b;
      RemoveKeyConcat(a[1..], b, k);
    }
  }

  /** Removing the key of the entry between a lower and a higher part drops it. */
  lemma RemoveBetween<V>(a: seq<Entry<V>>, e: Entry<V>, b: seq<Entry<V>>)
    requires AllBelow(a, e.key) && AllAbove(b, e.key)
    ensures RemoveKey(a + [e] + b, e.key) == a + b
  {
    RemoveKeyConcat(a + [e], b, e.key);
    RemoveKeyConcat(a, [e], e.key);
    RemoveKeyAbsent(a, e.key);
    RemoveKeyAbsent(b, e.key);
    assert RemoveKey([e], e.key) == [];
  }
}
