/** Lookup: `find` and `findNode`. */
module Lookup {
  import opened Trees

  /** `findNode`: compare hashes; smaller goes left, larger or hash-equal but
      unequal goes right; an equal key is returned.  A null child ends the
      search with nothing found. */
  function FindNode<T(==)>(h: T -> int, t: Tree<T>, q: T): (r: Option<T>)
    ensures r.Some? ==> r.value == q && q in Elems(t)
  {
    match t
    case Nil => None
    case Node(_, k, l, rt) =>
      if h(q) < h(k) then FindNode(h, l, q)
      else if h(q) > h(k) || k != q then FindNode(h, rt, q)
      else Some(k)
  }

  /** `find` on a version whose head holds `root`: a null key is an error,
      an empty tree finds nothing, otherwise the search starts at the root. */
  function Find<T(==)>(h: T -> int, root: Tree<T>, key: Option<T>): (r: Result<Option<T>>)
    ensures key.None? <==> r.NullKey?
    ensures key.Some? && root == Nil ==> r == Ok(None)
    ensures r.Ok? && r.value.Some? ==> r.value.value == key.value && key.value in Elems(root)
  {
    match key
    case None => NullKey
    case Some(q) => if root == Nil then Ok(None) else Ok(FindNode(h, root, q))
  }

  /** No key of `t` other than `q` itself has the hash of `q`. */
  ghost predicate NoCollision<T>(h: T -> int, t: Tree<T>, q: T) {
    forall y :: y in Elems(t) && h(y) == h(q) ==> y == q
  }

  /** Distinct keys have distinct hashes, as for `Integer`. */
  ghost predicate Injective<T(!new)>(h: T -> int) {
    forall a, b :: h(a) == h(b) ==> a == b
  }

  /** Without hash collisions on `q`, `findNode` finds exactly the stored keys. */
  lemma {:induction false} FindNodeComplete<T>(h: T -> int, t: Tree<T>, q: T)
    requires Sorted(h, t) && NoCollision(h, t, q)
    ensures FindNode(h, t, q).Some? <==> q in Elems(t)
  {
    if t.Node? {
      SubCollision(h, t, q);
      FindNodeComplete(h, t.left, q);
      FindNodeComplete(h, t.right, q);
      SortedAt(h, t, q);
      FindNodeNode(h, t, q);
    }
  }

  /** The inductive step of `FindNodeComplete` at one node. */
  lemma FindNodeNode<T>(h: T -> int, t: Tree<T>, q: T)
    requires t.Node? && (h(t.key) == h(q) ==> t.key == q)
    requires q in Elems(t.left) ==> h(q) <= h(t.key)
    requires q in Elems(t.right) ==> h(t.key) <= h(q)
    requires FindNode(h, t.left, q).Some? <==> q in Elems(t.left)
    requires FindNode(h, t.right, q).Some? <==> q in Elems(t.right)
    ensures FindNode(h, t, q).Some? <==> q in Elems(t)
  {
    ElemsNode(t, q);
  }

  /** The subtrees of a tree without collisions on `q` have none either,
      and its key hashes like `q` only if it is `q`. */
  lemma SubCollision<T>(h: T -> int, t: Tree<T>, q: T)
    requires t.Node? && NoCollision(h, t, q)
    ensures NoCollision(h, t.left, q) && NoCollision(h, t.right, q)
    ensures h(t.key) == h(q) ==> t.key == q
  {
    assert Elems(t) == Elems(t.left) + multiset{t.key} + Elems(t.right);
    assert t.key in Elems(t);
  }

  /** The keys of a node are its own and those of its two subtrees. */
  lemma ElemsNode<T>(t: Tree<T>, q: T)
    requires t.Node?
    ensures q in Elems(t) <==> q in Elems(t.left) || q == t.key || q in Elems(t.right)
  {
  }

  /** In a hash-ordered node, a key of the left subtree hashes no higher and
      a key of the right subtree no lower than the node's key. */
  lemma SortedAt<T>(h: T -> int, t: Tree<T>, q: T)
    requires t.Node? && Sorted(h, t)
    ensures q in Elems(t.left) ==> h(q) <= h(t.key)
    ensures q in Elems(t.right) ==> h(t.key) <= h(q)
  {
  }

  /** Lookup that also searches the left subtree when the hashes are equal:
      after rotations an equal-hash key may sit on either side of a node. */
  function FindFixed<T(==)>(h: T -> int, t: Tree<T>, q: T): (r: Option<T>)
    ensures r.Some? ==> r.value == q && q in Elems(t)
  {
    match t
    case Nil => None
    case Node(_, k, l, rt) =>
      if h(q) < h(k) then FindFixed(h, l, q)
      else if h(q) > h(k) then FindFixed(h, rt, q)
      else if k == q then Some(k)
      else
        match FindFixed(h, l, q)
        case Some(y) => Some(y)
        case None => FindFixed(h, rt, q)
  }

  /** On every hash-ordered tree the corrected lookup finds exactly the stored keys. */
  lemma {:induction false} FindFixedComplete<T>(h: T -> int, t: Tree<T>, q: T)
    requires Sorted(h, t)
    ensures FindFixed(h, t, q).Some? <==> q in Elems(t)
  {
    if t.Node? {
      FindFixedComplete(h, t.left, q);
      FindFixedComplete(h, t.right, q);
      SortedAt(h, t, q);
      FindFixedNode(h, t, q);
    }
  }

  /** The inductive step of `FindFixedComplete` at one node. */
  lemma FindFixedNode<T>(h: T -> int, t: Tree<T>, q: T)
    requires t.Node?
    requires q in Elems(t.left) ==> h(q) <= h(t.key)
    requires q in Elems(t.right) ==> h(t.key) <= h(q)
    requires FindFixed(h, t.left, q).Some? <==> q in Elems(t.left)
    requires FindFixed(h, t.right, q).Some? <==> q in Elems(t.right)
    ensures FindFixed(h, t, q).Some? <==> q in Elems(t)
  {
    ElemsNode(t, q);
  }

  /** Without hash collisions the corrected lookup and `findNode` agree. */
  lemma FindFixedAgrees<T>(h: T -> int, t: Tree<T>, q: T)
    requires Sorted(h, t) && NoCollision(h, t, q)
    ensures FindFixed(h, t, q) == FindNode(h, t, q)
  {
    FindFixedComplete(h, t, q);
    FindNodeComplete(h, t, q);
  }
}
