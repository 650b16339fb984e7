/** Insertion engine: `insert`, `insertCopy`, `insertFix` on the value view.

    The source clones every node on the search path and then rewires the
    clones; on values a clone with a changed field is simply a new value.
    `insertCopy` returns `this` when the key is already on the search path;
    here that is `None`, and a changed subtree is `Some(n)`.
 */
module Insertion {
  import opened Trees
  import opened Lookup

  /** The node is red and has a red child. */
  predicate RedRedTop<T>(t: Tree<T>) {
    IsRed(t) && (IsRed(t.left) || IsRed(t.right))
  }

  /** A subtree whose only possible red-red pair is its top node with one child. */
  predicate Infra<T>(t: Tree<T>) {
    t.Node? ==>
      NoRedRed(t.left) && NoRedRed(t.right) && !(t.red && IsRed(t.left) && IsRed(t.right))
  }

  /** What `insertFix` finds at the clone it is called on: balanced, each child
      at worst an `Infra` subtree, and a red clone has no red-red below it. */
  predicate FixPre<T>(n: Tree<T>) {
    n.Node? && Balanced(n) && Infra(n.left) && Infra(n.right) &&
    (n.red ==> !RedRedTop(n.left) && !RedRedTop(n.right) && !(IsRed(n.left) && IsRed(n.right)))
  }

  /** `insertFix` (lines 241-272) applied to the clone `n`; the result is what
      the parent's slot holds afterwards (a rotation replaces `n` there). */
  function InsertFix<T>(n: Tree<T>): (m: Tree<T>)
    requires n.Node?
    ensures m.Node? && Keys(m) == Keys(n)
  {
    if IsRed(n.left) && IsRed(n.right) then
      if IsRed(n.left.left) || IsRed(n.left.right) || IsRed(n.right.left) || IsRed(n.right.right) then
        Node(true, n.key, Blacken(n.left), Blacken(n.right))
      else n
    else if IsRed(n.left) then FixLeft(n)
    else if IsRed(n.right) then FixRight(n)
    else n
  }

  /** Lines 252-260: red left child, black right child. */
  function FixLeft<T>(n: Tree<T>): (m: Tree<T>)
    requires n.Node? && IsRed(n.left)
    ensures m.Node? && Keys(m) == Keys(n)
  {
    var n1 := if IsRed(n.left.right) then n.(left := RotateLeft(n.left)) else n;
    if IsRed(n1.left.left) then RotateRight(Node(true, n1.key, Blacken(n1.left), n1.right))
    else n1
  }

  /** Lines 263-270: red right child, black left child. */
  function FixRight<T>(n: Tree<T>): (m: Tree<T>)
    requires n.Node? && IsRed(n.right)
    ensures m.Node? && Keys(m) == Keys(n)
  {
    var n1 := if IsRed(n.right.left) then n.(right := RotateRight(n.right)) else n;
    if IsRed(n1.right.right) then RotateLeft(Node(true, n1.key, n1.left, Blacken(n1.right)))
    else n1
  }

  lemma FixLeftValid<T>(n: Tree<T>)
    requires FixPre(n) && IsRed(n.left) && !IsRed(n.right)
    ensures var m := FixLeft(n);
      Balanced(m) && BH(m) == BH(n) && Infra(m) && (RedRedTop(m) ==> n.red)
  {
    var k, L, R := n.key, n.left, n.right;
    var a, d := L.left, L.right;
    assert Balanced(L) && Balanced(R) && BH(L) == BH(R);
    assert BH(a) == BH(d) && Balanced(a) && Balanced(d);
    assert BH(L) == BH(a);
    if IsRed(d) {
      assert !IsRed(a) && !n.red;
      assert BH(d.left) == BH(d.right) && BH(d) == BH(d.left);
      var m := Node(false, d.key, Node(true, L.key, a, d.left), Node(true, k, d.right, R));
      assert FixLeft(n) == m;
      assert Balanced(m.left) && Balanced(m.right);
      assert NoRedRed(m.left) && NoRedRed(m.right);
    } else if IsRed(a) {
      assert !n.red;
      var m := Node(false, L.key, a, Node(true, k, d, R));
      assert FixLeft(n) == m;
      assert Balanced(m.left) && Balanced(m.right);
      assert NoRedRed(m.left) && NoRedRed(m.right);
    } else {
      assert FixLeft(n) == n;
    }
  }

  lemma FixRightValid<T>(n: Tree<T>)
    requires FixPre(n) && IsRed(n.right) && !IsRed(n.left)
    ensures var m := FixRight(n);
      Balanced(m) && BH(m) == BH(n) && Infra(m) && (RedRedTop(m) ==> n.red)
  {
    var k, L, R := n.key, n.left, n.right;
    var a, d := R.right, R.left;
    assert Balanced(L) && Balanced(R) && BH(L) == BH(R);
    assert BH(a) == BH(d) && Balanced(a) && Balanced(d);
    assert BH(R) == BH(d);
    if IsRed(d) {
      assert !IsRed(a) && !n.red;
      assert BH(d.left) == BH(d.right) && BH(d) == BH(d.left);
      var m := Node(false, d.key, Node(true, k, L, d.left), Node(true, R.key, d.right, a));
      assert FixRight(n) == m;
      assert Balanced(m.left) && Balanced(m.right);
      assert NoRedRed(m.left) && NoRedRed(m.right);
    } else if IsRed(a) {
      assert !n.red;
      var m := Node(false, R.key, Node(true, k, L, d), a);
      assert FixRight(n) == m;
      assert Balanced(m.left) && Balanced(m.right);
      assert NoRedRed(m.left) && NoRedRed(m.right);
    } else {
      assert FixRight(n) == n;
    }
  }

  /** `insertFix` keeps the black height and leaves at most a red-red pair at its
      top, and then only when the clone itself was red. */
  lemma InsertFixValid<T>(n: Tree<T>)
    requires FixPre(n)
    ensures var m := InsertFix(n);
      Balanced(m) && BH(m) == BH(n) && Infra(m) && (RedRedTop(m) ==> n.red)
  {
    if IsRed(n.left) && IsRed(n.right) {
    } else if IsRed(n.left) {
      FixLeftValid(n);
    } else if IsRed(n.right) {
      FixRightValid(n);
    }
  }

  /** `insertCopy` (lines 201-236): `None` when the key is already on the
      search path (the source returns `this`), else the copy of `y` with the
      changed child slot. */
  function InsertCopy<T(==)>(h: T -> int, y: Tree<T>, x: T): (r: Option<Tree<T>>)
    requires y.Node?
    ensures r.Some? ==> r.value.Node? && r.value.red == y.red && r.value.key == y.key
    ensures r.Some? ==> Elems(r.value) == Elems(y) + multiset{x}
    decreases y, 0
  {
    if x == y.key then None
    else if h(x) < h(y.key) then
      match InsertBelow(h, y.left, x)
      case None => None
      case Some(c) => Some(y.(left := c))
    else
      match InsertBelow(h, y.right, x)
      case None => None
      case Some(c) => Some(y.(right := c))
  }

  /** What `insertCopy` puts into the child slot it descends into: a new red
      leaf for a null child (lines 208-209, 223-224), else the child's copy
      after `insertFix` (lines 212-217, 227-232). */
  function InsertBelow<T(==)>(h: T -> int, c: Tree<T>, x: T): (r: Option<Tree<T>>)
    ensures r.Some? ==> r.value.Node? && Elems(r.value) == Elems(c) + multiset{x}
    decreases c, 1
  {
    if c == Nil then Some(Node(true, x, Nil, Nil))
    else
      match InsertCopy(h, c, x)
      case None => None
      case Some(n) => ElemsSameKeys(n, InsertFix(n)); Some(InsertFix(n))
  }

  /** `insertCopy` returns `this` exactly when `findNode` would find the key:
      both follow the same hash-then-equals descent. */
  lemma {:induction false} InsertCopyFinds<T>(h: T -> int, y: Tree<T>, x: T)
    requires y.Node?
    ensures InsertCopy(h, y, x).None? <==> FindNode(h, y, x).Some?
    decreases y, 0
  {
    if x != y.key {
      InsertBelowFinds(h, Child(y, h(x) < h(y.key)), x);
    }
  }

  lemma {:induction false} InsertBelowFinds<T>(h: T -> int, c: Tree<T>, x: T)
    ensures InsertBelow(h, c, x).None? <==> FindNode(h, c, x).Some?
    decreases c, 1
  {
    if c != Nil {
      InsertCopyFinds(h, c, x);
    }
  }

  /** The subtree `insertCopy` returns is ready for `insertFix`, has the black
      height of the original and keeps the hash order. */
  lemma {:induction false} InsertCopyValid<T>(h: T -> int, y: Tree<T>, x: T)
    requires y.Node? && RB(y) && Sorted(h, y)
    ensures InsertCopy(h, y, x).Some? ==>
      var n := InsertCopy(h, y, x).value;
      FixPre(n) && BH(n) == BH(y) && Sorted(h, n)
    decreases y, 0
  {
    if x != y.key && InsertCopy(h, y, x).Some? {
      var goLeft := h(x) < h(y.key);
      var c := Child(y, goLeft);
      assert Balanced(c) && NoRedRed(c) && Sorted(h, c);
      assert InsertBelow(h, c, x).Some?;
      var m := InsertBelow(h, c, x).value;
      assert InsertCopy(h, y, x).value == WithChild(y, goLeft, m);
      InsertBelowValid(h, c, x);
      assert Elems(m) == Elems(c) + multiset{x};
      AttachValid(h, y, m, x, goLeft);
    }
  }

  /** Putting the result of an insertion below `y` back into `y`'s slot gives a
      clone that satisfies `FixPre`. */
  lemma AttachValid<T>(h: T -> int, y: Tree<T>, c: Tree<T>, x: T, goLeft: bool)
    requires y.Node? && RB(y) && Sorted(h, y)
    requires goLeft <==> h(x) < h(y.key)
    requires Balanced(c) && BH(c) == BH(Child(y, goLeft)) && Infra(c) && Sorted(h, c)
    requires RedRedTop(c) ==> IsRed(Child(y, goLeft))
    requires forall z :: z in Elems(c) ==> z == x || z in Elems(Child(y, goLeft))
    ensures var n := WithChild(y, goLeft, c);
      FixPre(n) && BH(n) == BH(y) && Sorted(h, n)
  {
    var k, l, r := y.key, y.left, y.right;
    assert Balanced(l) && Balanced(r) && BH(l) == BH(r);
    assert NoRedRed(l) && NoRedRed(r) && (y.red ==> !IsRed(l) && !IsRed(r));
    assert Sorted(h, l) && Sorted(h, r);
    var n := WithChild(y, goLeft, c);
    if goLeft {
      assert n == Node(y.red, k, c, r);
    } else {
      assert n == Node(y.red, k, l, c);
    }
  }

  lemma {:induction false} InsertBelowValid<T>(h: T -> int, c: Tree<T>, x: T)
    requires RB(c) && Sorted(h, c)
    ensures InsertBelow(h, c, x).Some? ==>
      var m := InsertBelow(h, c, x).value;
      Balanced(m) && BH(m) == BH(c) && Infra(m) && Sorted(h, m) && (RedRedTop(m) ==> IsRed(c))
    decreases c, 1
  {
    if c != Nil && InsertCopy(h, c, x).Some? {
      var n := InsertCopy(h, c, x).value;
      InsertCopyValid(h, c, x);
      InsertFixValid(n);
      SortedSameKeys(h, n, InsertFix(n));
    }
  }

  /** `insert` (lines 176-196) for a non-null key, as written: an empty tree
      gets a black root; otherwise the root is copied along the path, fixed
      with the head as parent, and painted black. */
  function InsertRoot<T(==)>(h: T -> int, root: Tree<T>, x: T): (r: Tree<T>)
    ensures root == Nil ==> r == Node(false, x, Nil, Nil)
    ensures root != Nil && FindNode(h, root, x).Some? ==> r == root
    ensures Elems(r) == if root != Nil && FindNode(h, root, x).Some? then Elems(root)
                        else Elems(root) + multiset{x}
  {
    if root == Nil then Node(false, x, Nil, Nil)
    else
      match InsertCopy(h, root, x)
      case None => InsertCopyFinds(h, root, x); root
      case Some(n) => InsertCopyFinds(h, root, x); ElemsSameKeys(n, Blacken(InsertFix(n))); Blacken(InsertFix(n))
  }

  /** Insertion keeps every red-black invariant and the hash order. */
  lemma InsertRootValid<T>(h: T -> int, root: Tree<T>, x: T)
    requires IsRbTree(h, root)
    ensures IsRbTree(h, InsertRoot(h, root, x))
  {
    if root != Nil {
      InsertCopyValid(h, root, x);
      if InsertCopy(h, root, x).Some? {
        var n := InsertCopy(h, root, x).value;
        InsertFixValid(n);
        SortedSameKeys(h, n, InsertFix(n));
        SortedSameKeys(h, InsertFix(n), Blacken(InsertFix(n)));
      }
    }
  }

  /** The public `insert` (lines 176-196) on the version whose head holds
      `root`: a null key is an error; otherwise the key goes below the head,
      with no lookup first. */
  function Insert<T(==)>(h: T -> int, root: Tree<T>, key: Option<T>): (r: Result<Tree<T>>)
    ensures key.None? <==> r.NullKey?
    ensures key.Some? && root == Nil ==> r == Ok(Node(false, key.value, Nil, Nil))
    ensures key.Some? && root != Nil && FindNode(h, root, key.value).Some? ==> r == Ok(root)
  {
    match key
    case None => NullKey
    case Some(x) => Ok(InsertRoot(h, root, x))
  }

  /** Insertion keeps the tree valid.  A key `findNode` finds leaves the
      contents as they are, any other key is added, and a key not yet stored
      is always added.  Without a hash collision on `x` the key is added
      exactly when it is absent, it is found afterwards, and a version that
      held no key twice still holds none twice. */
  lemma InsertSpec<T>(h: T -> int, root: Tree<T>, x: T)
    requires IsRbTree(h, root)
    ensures Insert(h, root, Some(x)).Ok?
    ensures var t := Insert(h, root, Some(x)).value;
      IsRbTree(h, t) &&
      Elems(t) == (if FindNode(h, root, x).Some? then Elems(root) else Elems(root) + multiset{x}) &&
      (x !in Elems(root) ==> Elems(t) == Elems(root) + multiset{x})
    ensures var t := Insert(h, root, Some(x)).value;
      NoCollision(h, root, x) ==>
        Elems(t) == (if x in Elems(root) then Elems(root) else Elems(root) + multiset{x}) &&
        FindNode(h, t, x) == Some(x) &&
        (Unique(root) ==> Unique(t))
  {
    InsertRootValid(h, root, x);
    var t := Insert(h, root, Some(x)).value;
    if NoCollision(h, root, x) {
      FindNodeComplete(h, root, x);
      assert NoCollision(h, t, x);
      FindNodeComplete(h, t, x);
    }
  }

  /** Inserting keys one after another into the empty tree, as the tests do. */
  function InsertAll<T(==)>(h: T -> int, root: Tree<T>, xs: seq<T>): (r: Tree<T>)
    decreases |xs|
  {
    if xs == [] then root else InsertAll(h, Insert(h, root, Some(xs[0])).value, xs[1..])
  }

  /** After inserting a sequence of keys the tree is valid and holds exactly
      the keys it held before and the keys of the sequence. */
  lemma {:induction false} InsertAllSpec<T>(h: T -> int, root: Tree<T>, xs: seq<T>)
    requires IsRbTree(h, root)
    ensures IsRbTree(h, InsertAll(h, root, xs))
    ensures forall z :: z in Elems(InsertAll(h, root, xs)) <==> z in Elems(root) || z in xs
    decreases |xs|
  {
    if xs != [] {
      InsertSpec(h, root, xs[0]);
      var t := Insert(h, root, Some(xs[0])).value;
      InsertAllSpec(h, t, xs[1..]);
      assert forall z :: z in xs <==> z == xs[0] || z in xs[1..];
    }
  }

  /** With an injective hash, as for `Integer`, inserting keys one after
      another never stores a key twice, repeated keys included. */
  lemma {:induction false} InsertAllUnique<T(!new)>(h: T -> int, root: Tree<T>, xs: seq<T>)
    requires IsRbTree(h, root) && Unique(root) && Injective(h)
    ensures Unique(InsertAll(h, root, xs))
    decreases |xs|
  {
    if xs != [] {
      assert NoCollision(h, root, xs[0]);
      InsertSpec(h, root, xs[0]);
      InsertAllUnique(h, Insert(h, root, Some(xs[0])).value, xs[1..]);
    }
  }

  /** No key occurs twice in the sequence. */
  predicate Distinct<T(==)>(xs: seq<T>) {
    forall i, j :: 0 <= i < j < |xs| ==> xs[i] != xs[j]
  }

  /** Distinct new keys are each stored once, so the size grows by the length
      of the sequence. */
  lemma InsertAllDistinct<T>(h: T -> int, root: Tree<T>, xs: seq<T>)
    requires IsRbTree(h, root) && Distinct(xs)
    requires forall z :: z in xs ==> z !in Elems(root)
    ensures Elems(InsertAll(h, root, xs)) == Elems(root) + multiset(xs)
    ensures Size(InsertAll(h, root, xs)) == Size(root) + |xs|
  {
    InsertAllElems(h, root, xs);
    SizeElems(root);
    SizeElems(InsertAll(h, root, xs));
  }

  lemma {:induction false} InsertAllElems<T>(h: T -> int, root: Tree<T>, xs: seq<T>)
    requires IsRbTree(h, root) && Distinct(xs)
    requires forall z :: z in xs ==> z !in Elems(root)
    ensures Elems(InsertAll(h, root, xs)) == Elems(root) + multiset(xs)
    decreases |xs|
  {
    if xs != [] {
      var t := Insert(h, root, Some(xs[0])).value;
      InsertFirst(h, root, xs);
      InsertAllElems(h, t, xs[1..]);
      MultisetHead(xs);
      calc {
        Elems(InsertAll(h, root, xs));
        Elems(InsertAll(h, t, xs[1..]));
        Elems(t) + multiset(xs[1..]);
        Elems(root) + multiset{xs[0]} + multiset(xs[1..]);
        Elems(root) + multiset(xs);
      }
    }
  }

  /** One step of `InsertAllElems`: the first key is new, so it is added,
      and the rest are still distinct and absent. */
  lemma InsertFirst<T>(h: T -> int, root: Tree<T>, xs: seq<T>)
    requires IsRbTree(h, root) && Distinct(xs) && xs != []
    requires forall z :: z in xs ==> z !in Elems(root)
    ensures var t := Insert(h, root, Some(xs[0])).value;
      IsRbTree(h, t) && Elems(t) == Elems(root) + multiset{xs[0]} &&
      Distinct(xs[1..]) && forall z :: z in xs[1..] ==> z !in Elems(t)
  {
    InsertSpec(h, root, xs[0]);
    DistinctTail(xs);
    assert forall z :: z in xs[1..] ==> z in xs;
  }

  lemma MultisetHead<T>(xs: seq<T>)
    requires xs != []
    ensures multiset(xs) == multiset{xs[0]} + multiset(xs[1..])
  {
    assert xs == [xs[0]] + xs[1..];
  }

  /** The tail of a distinct sequence is distinct and misses the head. */
  lemma DistinctTail<T>(xs: seq<T>)
    requires Distinct(xs) && xs != []
    ensures Distinct(xs[1..]) && xs[0] !in xs[1..]
  {
    var tl := xs[1..];
    forall i, j | 0 <= i < j < |tl| ensures tl[i] != tl[j] {
      assert tl[i] == xs[i + 1] && tl[j] == xs[j + 1];
    }
    forall i | 0 <= i < |tl| ensures tl[i] != xs[0] {
      assert tl[i] == xs[i + 1];
    }
  }

  /** A hash that maps every key to the same value. */
  function ConstHash(z: int): int { 0 }

  /** Hash collisions defeat the descent of lines 707-715: with one hash for
      every key, inserting 1, 2, 3 rotates 1 into the left subtree of 2, where
      `findNode` (which goes right on equal hashes) never looks, and a second
      insertion of 1 stores it twice. */
  lemma CollisionLosesKey()
    ensures var t := InsertRoot(ConstHash, InsertRoot(ConstHash, InsertRoot(ConstHash, Nil, 1), 2), 3);
      1 in Elems(t) && FindNode(ConstHash, t, 1) == None &&
      Elems(InsertRoot(ConstHash, t, 1))[1] == 2
  {
    var t1 := InsertRoot(ConstHash, Nil, 1);
    assert t1 == Node(false, 1, Nil, Nil);
    var leaf2 := Node(true, 2, Nil, Nil);
    assert InsertBelow(ConstHash, Nil, 2) == Some(leaf2);
    assert InsertCopy(ConstHash, t1, 2) == Some(Node(false, 1, Nil, leaf2));
    var t2 := InsertRoot(ConstHash, t1, 2);
    assert t2 == Node(false, 1, Nil, leaf2);
    var leaf3 := Node(true, 3, Nil, Nil);
    assert InsertBelow(ConstHash, Nil, 3) == Some(leaf3);
    assert InsertCopy(ConstHash, leaf2, 3) == Some(Node(true, 2, Nil, leaf3));
    assert InsertFix(Node(true, 2, Nil, leaf3)) == Node(true, 2, Nil, leaf3);
    assert InsertBelow(ConstHash, leaf2, 3) == Some(Node(true, 2, Nil, leaf3));
    assert InsertCopy(ConstHash, t2, 3) == Some(Node(false, 1, Nil, Node(true, 2, Nil, leaf3)));
    var t3 := InsertRoot(ConstHash, t2, 3);
    assert t3 == Node(false, 2, Node(true, 1, Nil, Nil), leaf3);
    assert FindNode(ConstHash, leaf3, 1) == None;
    assert FindNode(ConstHash, t3, 1) == None;
    assert Elems(t3) == multiset{1, 2, 3};
  }
}
