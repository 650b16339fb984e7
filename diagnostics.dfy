/** The read-only queries of a version: emptiness, size, the structural
    hash code and the `valid()` self-check.

    Java's `int` arithmetic wraps around modulo 2^32; `Wrap` maps a
    mathematical integer to the `int` it becomes.
 */
module Diagnostics {
  import opened Trees

  const Modulus: int := 0x1_0000_0000
  const Half: int := 0x8000_0000

  /** Marker returned by `validBlackHeight` for an invalid subtree. */
  const INVALID: int := -1

  /** The Java `int` that the mathematical integer `x` becomes. */
  function Wrap(x: int): (r: int)
    ensures -Half <= r < Half
  {
    (x + Half) % Modulus - Half
  }

  lemma WrapDef(x: int)
    ensures Wrap(x) == x - Modulus * ((x + Half) / Modulus)
  {
  }

  lemma WrapShift(x: int, q: int)
    ensures Wrap(x + q * Modulus) == Wrap(x)
  {
    var r := (x + Half) % Modulus;
    var d := (x + Half) / Modulus;
    assert x + q * Modulus + Half == (d + q) * Modulus + r;
  }

  /** Wrapping an intermediate sum does not change the wrapped total. */
  lemma WrapAdd(x: int, y: int)
    ensures Wrap(x + Wrap(y)) == Wrap(x + y)
  {
    var q := (y + Half) / Modulus;
    WrapDef(y);
    assert x + Wrap(y) == x + y + (-q) * Modulus;
    WrapShift(x + y, -q);
  }

  /** Summing a node's contribution and its children's sums in 32-bit steps
      gives the wrapped total. */
  lemma WrapSum(s: int, a: int, b: int)
    ensures Wrap(Wrap(Wrap(s) + Wrap(a)) + Wrap(b)) == Wrap(s + a + b)
  {
    WrapAdd(Wrap(s), a);
    WrapAdd(a, s);
    assert Wrap(Wrap(s) + Wrap(a)) == Wrap(s + a);
    WrapAdd(Wrap(s + a), b);
    WrapAdd(b, s + a);
  }

  /** `empty()` of a published version: the head has no root. */
  function IsEmpty<T>(root: Tree<T>): (b: bool)
    ensures b <==> Size(root) == 0
    ensures b <==> Elems(root) == multiset{}
  {
    if root.Node? then
      assert root.key in Elems(root);
      false
    else true
  }

  /** The contribution of one node: its key's hash, negated when black. */
  function Signed<T>(h: T -> int, t: Tree<T>): int
    requires t.Node?
  {
    h(t.key) * (if t.red then 1 else -1)
  }

  /** The sum of the signed hashes of all nodes, without wrap-around. */
  function RawHash<T>(h: T -> int, t: Tree<T>): int {
    match t
    case Nil => 0
    case Node(_, _, l, r) => Signed(h, t) + RawHash(h, l) + RawHash(h, r)
  }

  /** `hashCode()`: the signed hash of the node plus the hash codes of its
      children, each operation in 32-bit arithmetic. The head contributes
      nothing, so a version's hash code is its root's. */
  function HashCode<T>(h: T -> int, t: Tree<T>): (r: int)
    ensures -Half <= r < Half
  {
    match t
    case Nil => 0
    case Node(_, _, l, rt) =>
      Wrap(Wrap(Wrap(Signed(h, t)) + HashCode(h, l)) + HashCode(h, rt))
  }

  /** Wrapping after every step gives the wrapped sum of all signed hashes. */
  lemma {:induction false} HashCodeRaw<T>(h: T -> int, t: Tree<T>)
    ensures HashCode(h, t) == Wrap(RawHash(h, t))
  {
    if t.Node? {
      var s, a, b := Signed(h, t), RawHash(h, t.left), RawHash(h, t.right);
      HashCodeRaw(h, t.left);
      HashCodeRaw(h, t.right);
      WrapSum(s, a, b);
    }
  }

  /** Rotations keep every node with its colour, so they keep the hash code. */
  lemma RotateLeftHash<T>(h: T -> int, t: Tree<T>)
    requires t.Node? && t.right.Node?
    ensures HashCode(h, RotateLeft(t)) == HashCode(h, t)
  {
    var r := RotateLeft(t);
    assert RawHash(h, r.left) == Signed(h, t) + RawHash(h, t.left) + RawHash(h, t.right.left);
    assert RawHash(h, r) == RawHash(h, t);
    HashCodeRaw(h, r);
    HashCodeRaw(h, t);
  }

  lemma RotateRightHash<T>(h: T -> int, t: Tree<T>)
    requires t.Node? && t.left.Node?
    ensures HashCode(h, RotateRight(t)) == HashCode(h, t)
  {
    var r := RotateRight(t);
    assert RawHash(h, r.right) == Signed(h, t) + RawHash(h, t.left.right) + RawHash(h, t.right);
    assert RawHash(h, r) == RawHash(h, t);
    HashCodeRaw(h, r);
    HashCodeRaw(h, t);
  }

  /** Repainting a node changes the hash code by twice its key's hash. */
  lemma PaintHash<T>(h: T -> int, t: Tree<T>)
    requires t.Node?
    ensures HashCode(h, Paint(t, true)) == Wrap(HashCode(h, Paint(t, false)) + 2 * h(t.key))
  {
    var b := Paint(t, false);
    WrapAdd(2 * h(t.key), RawHash(h, b));
    assert RawHash(h, Paint(t, true)) == RawHash(h, b) + 2 * h(t.key);
    HashCodeRaw(h, b);
    HashCodeRaw(h, Paint(t, true));
  }

  // ---------------------------------------------------------------------
  // valid()

  /** Each child's hash is on the correct side of its parent's. This is the
      only ordering `validBlackHeight` inspects. */
  predicate LocalOrder<T>(h: T -> int, t: Tree<T>) {
    match t
    case Nil => true
    case Node(_, k, l, r) =>
      (l.Node? ==> h(l.key) <= h(k)) && (r.Node? ==> h(k) <= h(r.key)) &&
      LocalOrder(h, l) && LocalOrder(h, r)
  }

  /** `validBlackHeight` on a non-null subtree: red violation first, then the
      left son (order, then recursively), then the right son, then the two
      heights compared. */
  function ValidBlackHeight<T>(h: T -> int, t: Tree<T>): (r: int)
    requires t.Node?
    ensures r >= INVALID
  {
    if t.red && (IsRed(t.left) || IsRed(t.right)) then INVALID
    else
      var lb := if t.left == Nil then 0
                else if h(t.key) < h(t.left.key) then INVALID
                else ValidBlackHeight(h, t.left);
      if lb == INVALID then INVALID
      else
        var rb := if t.right == Nil then 0
                  else if h(t.right.key) < h(t.key) then INVALID
                  else ValidBlackHeight(h, t.right);
        if rb == INVALID || lb != rb then INVALID
        else lb + (if t.red then 0 else 1)
  }

  /** `validBlackHeight` succeeds exactly on the subtrees that satisfy both
      colour rules and the local order, and then returns the black height. */
  lemma {:induction false} ValidBlackHeightSpec<T>(h: T -> int, t: Tree<T>)
    requires t.Node?
    ensures ValidBlackHeight(h, t) != INVALID <==> RB(t) && LocalOrder(h, t)
    ensures ValidBlackHeight(h, t) != INVALID ==> ValidBlackHeight(h, t) == BH(t)
  {
    if t.left.Node? {
      ValidBlackHeightSpec(h, t.left);
    }
    if t.right.Node? {
      ValidBlackHeightSpec(h, t.right);
    }
  }

  /** `valid()` on a published version: the head is black (always so by
      construction) and the root, when present, is black and passes
      `validBlackHeight`. */
  function Valid<T>(h: T -> int, root: Tree<T>): (r: bool)
    ensures root == Nil ==> r
    ensures r ==> !IsRed(root)
  {
    root == Nil || (!root.red && ValidBlackHeight(h, root) != INVALID)
  }

  /** `valid()` holds exactly for a black root, the two colour rules and the
      local order. */
  lemma ValidSpec<T>(h: T -> int, root: Tree<T>)
    ensures Valid(h, root) <==> !IsRed(root) && RB(root) && LocalOrder(h, root)
  {
    if root.Node? {
      ValidBlackHeightSpec(h, root);
    }
  }

  /** The full hash order implies the local one. */
  lemma {:induction false} SortedLocalOrder<T>(h: T -> int, t: Tree<T>)
    requires Sorted(h, t)
    ensures LocalOrder(h, t)
  {
    if t.Node? {
      SortedLocalOrder(h, t.left);
      SortedLocalOrder(h, t.right);
      if t.left.Node? {
        assert t.left.key in Elems(t.left);
      }
      if t.right.Node? {
        assert t.right.key in Elems(t.right);
      }
    }
  }

  /** Every version the operations publish passes `valid()`. */
  lemma RbTreeValid<T>(h: T -> int, root: Tree<T>)
    requires IsRbTree(h, root)
    ensures Valid(h, root)
  {
    SortedLocalOrder(h, root);
    ValidSpec(h, root);
  }

  /** `valid()` does not check the hash order beyond parent and child: it
      accepts 2(1(-, 3), 4), where `3` sits left of `2`. */
  lemma ValidMissesOrder()
    ensures var t := Node(false, 2, Node(false, 1, Nil, Node(true, 3, Nil, Nil)), Node(false, 4, Nil, Nil));
      Valid(Identity, t) && !Sorted(Identity, t)
  {
    var t := Node(false, 2, Node(false, 1, Nil, Node(true, 3, Nil, Nil)), Node(false, 4, Nil, Nil));
    assert 3 in Elems(t.left);
  }
}
