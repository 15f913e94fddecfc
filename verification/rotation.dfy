/**
 * Rotations and the rotation-case decision shared by inline_avl.h and
 * avl.c, and the one step of the upward retrace that uses them.
 */
module Rotation {
  import opened AvlTree

  /**
   * `rotate_right` around `a`: its left child `b` takes its place, `a`
   * becomes `b`'s right child and adopts `b`'s old right subtree. The two
   * moved nodes have their heights refreshed, `a` first.
   */
  function RotateRight<V>(a: Tree<V>): (r: Tree<V>)
    requires a.Node? && a.lc.Node?
    ensures r.Node? && r.rc.Node?
    ensures r.key == a.lc.key && r.val == a.lc.val && r.lc == a.lc.lc
    ensures r.rc.key == a.key && r.rc.val == a.val && r.rc.lc == a.lc.rc && r.rc.rc == a.rc
    ensures InOrder(r) == InOrder(a)
    ensures r.rc.height == 1 + Max(Ht(r.rc.lc), Ht(r.rc.rc))
    ensures r.height == 1 + Max(Ht(r.lc), Ht(r.rc))
  {
    var b := a.lc;
    Mk(b.lc, b.key, b.val, Mk(b.rc, a.key, a.val, a.rc))
  }

  /** `rotate_left` around `a`, the mirror image of `RotateRight`. */
  function RotateLeft<V>(a: Tree<V>): (r: Tree<V>)
    requires a.Node? && a.rc.Node?
    ensures r.Node? && r.lc.Node?
    ensures r.key == a.rc.key && r.val == a.rc.val && r.rc == a.rc.rc
    ensures r.lc.key == a.key && r.lc.val == a.val && r.lc.lc == a.lc && r.lc.rc == a.rc.lc
    ensures InOrder(r) == InOrder(a)
    ensures r.lc.height == 1 + Max(Ht(r.lc.lc), Ht(r.lc.rc))
    ensures r.height == 1 + Max(Ht(r.lc), Ht(r.rc))
  {
    var c := a.rc;
    Mk(Mk(a.lc, a.key, a.val, c.lc), c.key, c.val, c.rc)
  }

  /** avl.c's `enum avl_rotate_case`. */
  datatype RotCase = NoRotation | LeftLeft | LeftRight | RightRight | RightLeft

  /**
   * `find_case` of avl.c: no rotation unless the cached child heights differ
   * by more than one; on the heavy side, a double rotation only when the
   * heavy child leans the other way (a child with equal sides takes the
   * single rotation).
   */
  function FindCase<V>(n: Tree<V>): (c: RotCase)
    requires n.Node?
    ensures c.NoRotation? <==> -1 <= Balance(n) <= 1
    ensures (c.LeftLeft? || c.LeftRight?) ==> n.lc.Node? && Balance(n) < -1
    ensures (c.RightRight? || c.RightLeft?) ==> n.rc.Node? && Balance(n) > 1
    ensures c.LeftRight? ==> n.lc.rc.Node?
    ensures c.RightLeft? ==> n.rc.lc.Node?
    ensures Balance(n) < -1 ==>
              n.lc.Node? && (c.LeftLeft? <==> Ht(n.lc.lc) >= Ht(n.lc.rc)) &&
              (c.LeftRight? <==> Ht(n.lc.lc) < Ht(n.lc.rc))
    ensures Balance(n) > 1 ==>
              n.rc.Node? && (c.RightLeft? <==> Ht(n.rc.lc) > Ht(n.rc.rc)) &&
              (c.RightRight? <==> Ht(n.rc.lc) <= Ht(n.rc.rc))
  {
    var balance := Ht(n.rc) - Ht(n.lc);
    if -1 <= balance <= 1 then NoRotation
    else if Ht(n.lc) > Ht(n.rc) then
      if Ht(n.lc.lc) >= Ht(n.lc.rc) then LeftLeft else LeftRight
    else
      if Ht(n.rc.lc) > Ht(n.rc.rc) then RightLeft else RightRight
  }

  /** The rotation(s) `rebalance` applies at a node once its height is fresh. */
  function Fix<V>(n: Tree<V>): (r: Tree<V>)
    requires n.Node?
    ensures r.Node? && InOrder(r) == InOrder(n)
  {
    match FindCase(n)
    case NoRotation => n
    case LeftLeft => RotateRight(n)
    case LeftRight => RotateRight(n.(lc := RotateLeft(n.lc)))
    case RightRight => RotateLeft(n)
    case RightLeft => RotateLeft(n.(rc := RotateRight(n.rc)))
  }

  // ---------------------------------------------------------------------
  // The bit-mask form of the decision used by inline_avl.h
  // ---------------------------------------------------------------------

  const ROT_BALANCED: bv32 := 0x0
  const ROT_FIRST_L: bv32 := 0x1
  const ROT_FIRST_R: bv32 := 0x2
  const ROT_FMASK: bv32 := 0x3
  const ROT_SECND_L: bv32 := 0x4
  const ROT_SECND_R: bv32 := 0x8

  /**
   * inline_avl.h's `find_case`, returning a set of rotation bits: it names
   * exactly the case avl.c's `find_case` picks.
   */
  function FindCaseMask<V>(n: Tree<V>): (m: bv32)
    requires n.Node?
    ensures m == CaseBits(FindCase(n))
  {
    var hr := Ht(n.rc);
    var hl := Ht(n.lc);
    var balance := hr - hl;
    if balance < -1 || balance > 1 then
      if hl > hr then
        if Ht(n.lc.lc) < Ht(n.lc.rc) then ROT_FIRST_L | ROT_SECND_R else ROT_FIRST_L
      else
        if Ht(n.rc.lc) > Ht(n.rc.rc) then ROT_FIRST_R | ROT_SECND_L else ROT_FIRST_R
    else ROT_BALANCED
  }

  /**
   * The rotation part of inline_avl.h's `rebalance` loop, driven by the
   * mask: it performs the same rotations as avl.c's switch.
   */
  function FixMask<V>(n: Tree<V>): (r: Tree<V>)
    requires n.Node?
    ensures r == Fix(n)
  {
    var rot := FindCaseMask(n);
    if rot == ROT_BALANCED then n
    else if rot & ROT_FMASK == ROT_FIRST_L then
      var n' := if rot & ROT_SECND_R != 0 then n.(lc := RotateLeft(n.lc)) else n;
      RotateRight(n')
    else
      var n' := if rot & ROT_SECND_L != 0 then n.(rc := RotateRight(n.rc)) else n;
      RotateLeft(n')
  }

  /** The bits inline_avl.h reports for each of avl.c's cases. */
  function CaseBits(c: RotCase): bv32
  {
    match c
    case NoRotation => ROT_BALANCED
    case LeftLeft => ROT_FIRST_L
    case LeftRight => ROT_FIRST_L | ROT_SECND_R
    case RightRight => ROT_FIRST_R
    case RightLeft => ROT_FIRST_R | ROT_SECND_L
  }

  // ---------------------------------------------------------------------
  // Rotations restore the AVL property
  // ---------------------------------------------------------------------

  /** A node whose cached height was just refreshed over well-cached children. */
  predicate Fresh<V>(n: Tree<V>)
  {
    n.Node? && HeightsOk(n.lc) && HeightsOk(n.rc) && n.height == 1 + Max(Ht(n.lc), Ht(n.rc))
  }

  lemma FixLeftLeft<V>(n: Tree<V>)
    requires Fresh(n) && Avl(n.lc) && Avl(n.rc)
    requires Height(n.lc) == Height(n.rc) + 2
    requires n.lc.Node? && Height(n.lc.lc) >= Height(n.lc.rc)
    ensures Avl(RotateRight(n))
    ensures Height(n.lc) <= Height(RotateRight(n)) <= Height(n.lc) + 1
  {
  }

  lemma FixRightRight<V>(n: Tree<V>)
    requires Fresh(n) && Avl(n.lc) && Avl(n.rc)
    requires Height(n.rc) == Height(n.lc) + 2
    requires n.rc.Node? && Height(n.rc.rc) >= Height(n.rc.lc)
    ensures Avl(RotateLeft(n))
    ensures Height(n.rc) <= Height(RotateLeft(n)) <= Height(n.rc) + 1
  {
  }

  lemma FixLeftRight<V>(n: Tree<V>)
    requires Fresh(n) && Avl(n.lc) && Avl(n.rc)
    requires Height(n.lc) == Height(n.rc) + 2
    requires n.lc.Node? && Height(n.lc.lc) < Height(n.lc.rc)
    ensures n.lc.rc.Node?
    ensures Avl(RotateRight(n.(lc := RotateLeft(n.lc))))
    ensures Height(RotateRight(n.(lc := RotateLeft(n.lc)))) == Height(n.lc)
  {
    var b := n.lc;
    var c := b.rc;
    assert HeightsOk(c) && Balanced(c);
    var inner := Mk(b.lc, b.key, b.val, c.lc);
    var outer := Mk(c.rc, n.key, n.val, n.rc);
    assert Height(c) == Height(n.rc) + 1;
    assert Avl(inner) && Height(inner) == Height(n.rc) + 1;
    assert Avl(outer) && Height(outer) == Height(n.rc) + 1;
    assert RotateLeft(b) == Mk(inner, c.key, c.val, c.rc);
    assert RotateRight(n.(lc := RotateLeft(b))) == Mk(inner, c.key, c.val, outer);
  }

  lemma FixRightLeft<V>(n: Tree<V>)
    requires Fresh(n) && Avl(n.lc) && Avl(n.rc)
    requires Height(n.rc) == Height(n.lc) + 2
    requires n.rc.Node? && Height(n.rc.rc) < Height(n.rc.lc)
    ensures n.rc.lc.Node?
    ensures Avl(RotateLeft(n.(rc := RotateRight(n.rc))))
    ensures Height(RotateLeft(n.(rc := RotateRight(n.rc)))) == Height(n.rc)
  {
    var b := n.rc;
    var c := b.lc;
    assert HeightsOk(c) && Balanced(c);
    var inner := Mk(c.rc, b.key, b.val, b.rc);
    var outer := Mk(n.lc, n.key, n.val, c.lc);
    assert Height(c) == Height(n.lc) + 1;
    assert Avl(inner) && Height(inner) == Height(n.lc) + 1;
    assert Avl(outer) && Height(outer) == Height(n.lc) + 1;
    assert RotateRight(b) == Mk(c.lc, c.key, c.val, inner);
    assert RotateLeft(n.(rc := RotateRight(b))) == Mk(outer, c.key, c.val, inner);
  }

  /**
   * One retrace step restores the AVL property at a freshly refreshed node
   * whose AVL children differ in height by at most two; the repaired subtree
   * is no lower than its higher child and at most one above it. A node that
   * was already balanced is left untouched.
   */
  lemma FixAvl<V>(n: Tree<V>)
    requires Fresh(n) && Avl(n.lc) && Avl(n.rc)
    requires -2 <= Height(n.rc) - Height(n.lc) <= 2
    ensures Avl(Fix(n))
    ensures Max(Height(n.lc), Height(n.rc)) <= Height(Fix(n)) <= 1 + Max(Height(n.lc), Height(n.rc))
    ensures -1 <= Height(n.rc) - Height(n.lc) <= 1 ==> Fix(n) == n
  {
    match FindCase(n)
    case NoRotation =>
    case LeftLeft =>
      FixLeftLeft(n);
    case LeftRight =>
      FixLeftRight(n);
    case RightRight =>
      FixRightRight(n);
    case RightLeft =>
      FixRightLeft(n);
  }
}
