/** Value view of the nodes of the persistent red-black tree.

    A `Tree` is what one version of the Java node graph looks like from its
    root: `Nil` stands for a null child reference, and `Node` for an object
    with its four fields `red`, `key`, `left`, `right`.  The head (sentinel)
    node that holds the root in its left slot is not a `Tree` value: the value
    layer works on the root directly, the heap layer models the head.

    Elements are ordered by a hash function `h`, which is a parameter of every
    definition that needs it, so nothing is assumed about it.
 */
module Trees {

  datatype Option<T> = None | Some(value: T)

  /** Outcome of a public operation: the source throws `NullPointerException`
      when the key argument is null. */
  datatype Result<R> = Ok(value: R) | NullKey

  datatype Tree<T> = Nil | Node(red: bool, key: T, left: Tree<T>, right: Tree<T>)

  /** `isRed` (lines 672-674) on values: a null reference counts as black.
      `Heap.RbTree.IsRed` is the same test on nodes; `Heap.Colors` shows the
      two agree. */
  predicate IsRed<T>(t: Tree<T>) {
    t.Node? && t.red
  }

  /** The same node painted black, as `new RbTree<>(n.key, false, n.left, n.right)`. */
  function Blacken<T>(t: Tree<T>): (r: Tree<T>)
    ensures !IsRed(r) && Keys(r) == Keys(t)
    ensures t.Node? ==> r.Node? && r.left == t.left && r.right == t.right
  {
    match t
    case Nil => Nil
    case Node(_, k, l, rt) => Node(false, k, l, rt)
  }

  /** The same node with the given colour (the source assigns `n.red`). */
  function Paint<T>(t: Tree<T>, red: bool): (r: Tree<T>)
    requires t.Node?
    ensures r.Node? && r.red == red && r.key == t.key && r.left == t.left && r.right == t.right
    ensures Keys(r) == Keys(t)
  {
    t.(red := red)
  }

  /** The keys of a tree in order (left subtree, node, right subtree). */
  function Keys<T>(t: Tree<T>): seq<T> {
    match t
    case Nil => []
    case Node(_, k, l, r) => Keys(l) + [k] + Keys(r)
  }

  /** The keys of a tree as a multiset. */
  function Elems<T>(t: Tree<T>): (m: multiset<T>)
  {
    match t
    case Nil => multiset{}
    case Node(_, k, l, r) => Elems(l) + multiset{k} + Elems(r)
  }

  /** Java's `size()` of a subtree: the number of non-null nodes. */
  function Size<T>(t: Tree<T>): (n: nat)
    ensures n == |Keys(t)|
  {
    match t
    case Nil => 0
    case Node(_, _, l, r) => 1 + Size(l) + Size(r)
  }

  /** The child on the given side (`true` is left). */
  function Child<T>(t: Tree<T>, left: bool): Tree<T>
    requires t.Node?
  {
    if left then t.left else t.right
  }

  /** `swapSon` of the source on a value: replace the child on one side. */
  function WithChild<T>(t: Tree<T>, left: bool, c: Tree<T>): (r: Tree<T>)
    requires t.Node?
    ensures r.Node? && r.red == t.red && r.key == t.key
    ensures Child(r, left) == c && Child(r, !left) == Child(t, !left)
  {
    if left then t.(left := c) else t.(right := c)
  }

  /** `rotateLeft`: the right child `d` of `b` becomes the top of the subtree;
      each node keeps its colour. */
  function RotateLeft<T>(t: Tree<T>): (r: Tree<T>)
    requires t.Node? && t.right.Node?
    ensures Keys(r) == Keys(t)
    ensures r.Node? && r.key == t.right.key && r.red == t.right.red
    ensures r.left.Node? && r.left.key == t.key && r.left.red == t.red
  {
    var d := t.right;
    Node(d.red, d.key, Node(t.red, t.key, t.left, d.left), d.right)
  }

  /** `rotateRight`: the left child `b` of `d` becomes the top of the subtree. */
  function RotateRight<T>(t: Tree<T>): (r: Tree<T>)
    requires t.Node? && t.left.Node?
    ensures Keys(r) == Keys(t)
    ensures r.Node? && r.key == t.left.key && r.red == t.left.red
    ensures r.right.Node? && r.right.key == t.key && r.right.red == t.red
  {
    var b := t.left;
    Node(b.red, b.key, b.left, Node(t.red, t.key, b.right, t.right))
  }

  /** The hash of `Integer`: an `int` key hashes to itself. */
  function Identity(z: int): int { z }

  // ---------------------------------------------------------------------
  // Red-black invariants

  /** Number of black nodes on the leftmost path (null children count 0);
      in a balanced tree it is the black height of every path. */
  function BH<T>(t: Tree<T>): nat {
    match t
    case Nil => 0
    case Node(c, _, l, _) => BH(l) + (if c then 0 else 1)
  }

  /** Every path from a node to a null child has the same number of black nodes. */
  predicate Balanced<T>(t: Tree<T>) {
    match t
    case Nil => true
    case Node(_, _, l, r) => BH(l) == BH(r) && Balanced(l) && Balanced(r)
  }

  /** No red node has a red child. */
  predicate NoRedRed<T>(t: Tree<T>) {
    match t
    case Nil => true
    case Node(c, _, l, r) =>
      (c ==> !IsRed(l) && !IsRed(r)) && NoRedRed(l) && NoRedRed(r)
  }

  predicate RB<T>(t: Tree<T>) {
    Balanced(t) && NoRedRed(t)
  }

  /** The hashes of a sequence of keys never decrease. */
  ghost predicate SortedSeq<T>(h: T -> int, s: seq<T>) {
    forall i, j :: 0 <= i < j < |s| ==> h(s[i]) <= h(s[j])
  }

  /** Hash order: every key of the left subtree hashes no higher than the node's
      key, every key of the right subtree no lower (ties may sit on either side,
      because rotations move a node's right child above it). */
  ghost predicate Sorted<T>(h: T -> int, t: Tree<T>) {
    match t
    case Nil => true
    case Node(_, k, l, r) =>
      Sorted(h, l) && Sorted(h, r) &&
      (forall y :: y in Elems(l) ==> h(y) <= h(k)) &&
      (forall y :: y in Elems(r) ==> h(k) <= h(y))
  }

  /** The invariant every published version keeps: root black, the two colour
      rules, and the hash order. */
  ghost predicate IsRbTree<T>(h: T -> int, t: Tree<T>) {
    !IsRed(t) && RB(t) && Sorted(h, t)
  }

  /** No key is stored twice. */
  ghost predicate Unique<T>(t: Tree<T>) {
    forall z :: z in Elems(t) ==> Elems(t)[z] == 1
  }

  lemma {:induction false} ElemsKeys<T>(t: Tree<T>)
    ensures Elems(t) == multiset(Keys(t))
  {
    if t.Node? {
      ElemsKeys(t.left);
      ElemsKeys(t.right);
    }
  }

  /** The number of nodes is the number of stored keys. */
  lemma SizeElems<T>(t: Tree<T>)
    ensures |Elems(t)| == Size(t)
  {
    ElemsKeys(t);
  }

  /** Rearranging nodes without changing the in-order keys keeps the multiset. */
  lemma ElemsSameKeys<T>(a: Tree<T>, b: Tree<T>)
    requires Keys(a) == Keys(b)
    ensures Elems(a) == Elems(b)
  {
    ElemsKeys(a);
    ElemsKeys(b);
  }

  /** The hash order of a tree is the hash order of its in-order keys. */
  lemma {:induction false} SortedKeys<T>(h: T -> int, t: Tree<T>)
    ensures Sorted(h, t) <==> SortedSeq(h, Keys(t))
  {
    if t.Node? {
      SortedKeys(h, t.left);
      SortedKeys(h, t.right);
      if SortedSeq(h, Keys(t)) {
        NodeSplit(h, t);
      }
      if Sorted(h, t) {
        NodeJoin(h, t);
      }
    }
  }

  /** At one node, sorted in-order keys give sorted keys on both sides,
      bounded by the node's key. */
  lemma NodeSplit<T>(h: T -> int, t: Tree<T>)
    requires t.Node? && SortedSeq(h, Keys(t))
    ensures SortedSeq(h, Keys(t.left)) && SortedSeq(h, Keys(t.right))
    ensures forall y :: y in Elems(t.left) ==> h(y) <= h(t.key)
    ensures forall y :: y in Elems(t.right) ==> h(t.key) <= h(y)
  {
    ElemsKeys(t.left);
    ElemsKeys(t.right);
    SortedSplit(h, Keys(t.left), t.key, Keys(t.right));
  }

  /** At one node, sorted keys on both sides, bounded by the node's key,
      give sorted in-order keys. */
  lemma NodeJoin<T>(h: T -> int, t: Tree<T>)
    requires t.Node? && SortedSeq(h, Keys(t.left)) && SortedSeq(h, Keys(t.right))
    requires forall y :: y in Elems(t.left) ==> h(y) <= h(t.key)
    requires forall y :: y in Elems(t.right) ==> h(t.key) <= h(y)
    ensures SortedSeq(h, Keys(t))
  {
    ElemsKeys(t.left);
    ElemsKeys(t.right);
    SortedJoin(h, Keys(t.left), t.key, Keys(t.right));
  }

  /** Rebalancing rearranges nodes without changing the in-order keys, so it
      keeps the hash order. */
  lemma SortedSameKeys<T>(h: T -> int, a: Tree<T>, b: Tree<T>)
    requires Keys(a) == Keys(b) && Sorted(h, a)
    ensures Sorted(h, b)
  {
    SortedKeys(h, a);
    SortedKeys(h, b);
  }

  lemma SortedSplit<T>(h: T -> int, a: seq<T>, k: T, b: seq<T>)
    requires SortedSeq(h, a + [k] + b)
    ensures SortedSeq(h, a) && SortedSeq(h, b)
    ensures forall y :: y in a ==> h(y) <= h(k)
    ensures forall y :: y in b ==> h(k) <= h(y)
  {
    var s := a + [k] + b;
    assert forall i :: 0 <= i < |a| ==> s[i] == a[i];
    assert forall i :: 0 <= i < |b| ==> s[|a| + 1 + i] == b[i];
    assert s[|a|] == k;
    forall y | y in a ensures h(y) <= h(k) {
      var i :| 0 <= i < |a| && a[i] == y;
      assert s[i] == y;
    }
    forall y | y in b ensures h(k) <= h(y) {
      var i :| 0 <= i < |b| && b[i] == y;
      assert s[|a| + 1 + i] == y;
    }
    forall i, j | 0 <= i < j < |b| ensures h(b[i]) <= h(b[j]) {
      assert s[|a| + 1 + i] == b[i] && s[|a| + 1 + j] == b[j];
    }
  }

  lemma SortedJoin<T>(h: T -> int, a: seq<T>, k: T, b: seq<T>)
    requires SortedSeq(h, a) && SortedSeq(h, b)
    requires forall y :: y in a ==> h(y) <= h(k)
    requires forall y :: y in b ==> h(k) <= h(y)
    ensures SortedSeq(h, a + [k] + b)
  {
    var s := a + [k] + b;
    forall i, j | 0 <= i < j < |s| ensures h(s[i]) <= h(s[j]) {
      if j < |a| {
        assert s[i] == a[i] && s[j] == a[j];
      } else if i > |a| {
        assert s[i] == b[i - |a| - 1] && s[j] == b[j - |a| - 1];
      } else {
        if i < |a| { assert s[i] == a[i] && s[i] in a; }
        if j > |a| { assert s[j] == b[j - |a| - 1] && s[j] in b; }
      }
    }
  }
}
