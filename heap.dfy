/** The node objects of the persistent red-black tree.

    `RbTree` is the source's class: one object per node, with the fields
    `key`, `red`, `left`, `right`. A null `key` (here `None`) marks the head
    node of a version, whose `left` slot holds the root. The ghost field
    `Repr` is the set of nodes reachable from a node; `Valid()` says they
    form a proper tree, and `Model()` is the `Tree` value that the object
    graph stands for.

    Versions share subtrees. An operation clones the nodes it changes and
    rewires only the clones, so its `modifies` clause never names a node of
    an existing version.
 */
module Heap {
  import opened Trees
  import Insertion
  import Lookup
  import Deletion

  class RbTree<T(==)> {
    var key: Option<T>
    var red: bool
    var left: RbTree?<T>
    var right: RbTree?<T>
    ghost var Repr: set<object>

    /** A node whose reachable objects form a tree, every key present, and
        `Repr` is exactly the set of those objects. */
    ghost predicate Valid()
      reads this, Repr
      decreases Repr
    {
      this in Repr && key.Some? &&
      (left != null ==>
        left in Repr && left.Repr <= Repr && this !in left.Repr && left.Valid()) &&
      (right != null ==>
        right in Repr && right.Repr <= Repr && this !in right.Repr && right.Valid()) &&
      (left != null && right != null ==> left.Repr !! right.Repr) &&
      Repr == {this} + (if left == null then {} else left.Repr) + (if right == null then {} else right.Repr)
    }

    /** The value the node stands for. */
    ghost function Model(): (m: Tree<T>)
      reads this, Repr
      requires Valid()
      ensures m.Node? && m.red == red && m.key == key.value
      ensures (left == null <==> m.left == Nil) && (right == null <==> m.right == Nil)
      decreases Repr
    {
      Node(red, key.value,
        if left == null then Nil else left.Model(),
        if right == null then Nil else right.Model())
    }

    /** The head of a version: no key, black, root in the left slot. */
    ghost predicate IsHead()
      reads this, Repr
    {
      this in Repr && key.None? && !red && right == null &&
      (left != null ==> left in Repr && left.Repr <= Repr && this !in left.Repr && left.Valid())
    }

    /** The root value of the version this head holds. */
    ghost function Root(): Tree<T>
      reads this, Repr
      requires IsHead()
    {
      if left == null then Nil else left.Model()
    }

    /** `RbTree()`: the head of the empty version. */
    constructor Empty()
      ensures IsHead() && Root() == Nil && fresh(Repr) && Repr == {this}
    {
      key := None;
      red := false;
      left := null;
      right := null;
      new;
      Repr := {this};
    }

    /** `RbTree(T key)`: a new leaf, always red. */
    constructor Leaf(k: T)
      ensures Valid() && Model() == Node(true, k, Nil, Nil) && Repr == {this}
    {
      key := Some(k);
      red := true;
      left := null;
      right := null;
      new;
      Repr := {this};
    }

    /** `RbTree(key, red, left, right)` with a key. */
    constructor Make(k: T, r: bool, l: RbTree?<T>, rt: RbTree?<T>)
      ensures key == Some(k) && red == r && left == l && right == rt
      ensures Repr == {this} + (if l == null then {} else l.Repr) + (if rt == null then {} else rt.Repr)
    {
      key := Some(k);
      red := r;
      left := l;
      right := rt;
      new;
      Repr := {this} + (if l == null then {} else l.Repr) + (if rt == null then {} else rt.Repr);
    }

    /** `RbTree(RbTree from)` (lines 61-66): a clone with the same four fields. */
    constructor Copy(from: RbTree<T>)
      ensures key == from.key && red == from.red && left == from.left && right == from.right
      ensures Repr == {this} + (if from.left == null then {} else from.left.Repr) +
                      (if from.right == null then {} else from.right.Repr)
    {
      key := from.key;
      red := from.red;
      left := from.left;
      right := from.right;
      new;
      Repr := {this} + (if left == null then {} else left.Repr) + (if right == null then {} else right.Repr);
    }

    /** `rotateLeft(parent)` (lines 274-291): the right child `d` takes this
        node's place in the slot of `parent` that held this node, and `d`'s
        left child moves to this node's right. Only this node, `d` and
        `parent` change; `RotateLeftValid` gives the effect on the values. */
    method RotateLeft(parent: RbTree?<T>)
      requires right != null && right != this
      requires parent != null ==> parent != this && parent != right
      requires parent != null ==> parent.left == this || parent.right == this
      modifies this, right, parent
      ensures old(right).left == this && old(right).right == old(right.right)
      ensures old(right).key == old(right.key) && old(right).red == old(right.red)
      ensures left == old(left) && right == old(right.left) && key == old(key) && red == old(red)
      ensures old(right).Repr == old(Repr) && Repr == old({this} + ReprOf(left) + ReprOf(right.left))
      ensures parent != null ==>
        parent.key == old(parent.key) && parent.red == old(parent.red) && parent.Repr == old(parent.Repr)
      ensures parent != null && old(parent.left) == this ==>
        parent.left == old(right) && parent.right == old(parent.right)
      ensures parent != null && old(parent.left) != this ==>
        parent.right == old(right) && parent.left == old(parent.left)
    {
      var d := right;
      ghost var r := {this} + ReprOf(left) + ReprOf(d.left);
      d.Repr := Repr;
      Repr := r;
      if parent != null {
        if this == parent.left {
          parent.left := right;
        } else {
          parent.right := right;
        }
      }
      right := d.left;
      d.left := this;
    }

    /** `rotateRight(parent)` (lines 293-310): the mirror image. */
    method RotateRight(parent: RbTree?<T>)
      requires left != null && left != this
      requires parent != null ==> parent != this && parent != left
      requires parent != null ==> parent.left == this || parent.right == this
      modifies this, left, parent
      ensures old(left).right == this && old(left).left == old(left.left)
      ensures old(left).key == old(left.key) && old(left).red == old(left.red)
      ensures right == old(right) && left == old(left.right) && key == old(key) && red == old(red)
      ensures old(left).Repr == old(Repr) && Repr == old({this} + ReprOf(left.right) + ReprOf(right))
      ensures parent != null ==>
        parent.key == old(parent.key) && parent.red == old(parent.red) && parent.Repr == old(parent.Repr)
      ensures parent != null && old(parent.left) == this ==>
        parent.left == old(left) && parent.right == old(parent.right)
      ensures parent != null && old(parent.left) != this ==>
        parent.right == old(left) && parent.left == old(parent.left)
    {
      var b := left;
      ghost var r := {this} + ReprOf(b.right) + ReprOf(right);
      b.Repr := Repr;
      Repr := r;
      if parent != null {
        if this == parent.left {
          parent.left := b;
        } else {
          parent.right := b;
        }
      }
      left := b.right;
      b.right := this;
    }

    /** `swapSon(son, newSon)` (lines 694-702): the slot that held `son`
        now holds `newSon`, and the result says whether it was the left one.
        When this node was valid and `newSon` a valid subtree apart from the
        other son, the node stands for its old value with that son replaced. */
    method SwapSon(son: RbTree?<T>, newSon: RbTree?<T>) returns (wasLeft: bool)
      requires left == son || right == son
      modifies this
      ensures wasLeft <==> old(left) == son
      ensures wasLeft ==> left == newSon && right == old(right)
      ensures !wasLeft ==> right == newSon && left == old(left)
      ensures key == old(key) && red == old(red)
      ensures Repr == {this} + ReprOf(left) + ReprOf(right)
      ensures old(Valid() && Apart(newSon, if left == son then right else left)) ==>
        Valid() && Model() == WithChild(old(Model()), wasLeft, old(Sub(newSon)))
    {
      ghost var ok := Valid() && Apart(newSon, if left == son then right else left);
      ghost var V, RC := if ok then Sub(newSon) else Nil, ReprOf(newSon);
      if left == son {
        left := newSon;
        wasLeft := true;
      } else {
        right := newSon;
        wasLeft := false;
      }
      Repr := {this} + ReprOf(left) + ReprOf(right);
      if ok {
        Keep(newSon, V, RC);
        Replaced(this, wasLeft, newSon, V, RC);
      }
    }

    /** Lines 451-462 as written: `son`, whose only son is a red leaf, takes
        the leaf's key and drops the leaf. `son` is the son of this copy but
        still a node of the version the copy was made from, so that version
        changes as well. */
    method RemoveOnlySonAsWritten(son: RbTree<T>)
      requires son == left || son == right
      requires (son.left == null) != (son.right == null)
      modifies son
      ensures son.key == old(if son.left == null then son.right.key else son.left.key)
      ensures son.left == null && son.right == null && son.red == old(son.red) && son.Repr == {son}
    {
      var grandson := if son.left == null then son.right else son.left;
      son.key := grandson.key;
      if son.left == null {
        son.right := null;
      } else {
        son.left := null;
      }
      son.Repr := {son};
    }

    /** Lines 451-462 as evidently intended: this copy's son `son`, whose
        only son is a red leaf, is replaced by a new node with `son`'s colour
        and the leaf's key. Only this copy changes, and it then stands for
        the value step of removing a node with at most one son. */
    method RemoveOnlySon(son: RbTree<T>) returns (wasLeft: bool)
      requires Valid() && (son == left || son == right)
      requires (son.left == null) != (son.right == null)
      modifies this
      ensures wasLeft <==> old(left) == son
      ensures Valid() && Model() == Deletion.Reattach(old(Model()), wasLeft, Deletion.RemoveSon(old(son.Model()))).tree
    {
      Parts(this);
      var n := son.Collapsed();
      wasLeft := SwapSon(son, n);
    }

    /** The new node of lines 453-462 as evidently intended: this node's colour and
        the key of its only son, a leaf. */
    method Collapsed() returns (n: RbTree<T>)
      requires Valid() && (left == null) != (right == null)
      ensures fresh(n) && Stands(n, Deletion.RemoveSon(Model()).tree, {n})
    {
      var grandson := if left == null then right else left;
      n := new RbTree.Make(grandson.key.value, red, null, null);
    }

    /** `n` is null or a valid subtree that does not contain this node and
        shares no node with the subtree `o`. */
    ghost predicate Apart(n: RbTree?<T>, o: RbTree?<T>)
      reads this, n, o, ReprOf(n)
    {
      n != null ==> n.Valid() && this !in n.Repr && n.Repr !! ReprOf(o)
    }

    /** `isRed` (lines 672-674) on nodes: a null reference counts as black.
        `Trees.IsRed` is the same test on values (see `Colors`). */
    predicate IsRed(n: RbTree?<T>)
      reads n
    {
      n != null && n.red
    }

    /** When this node is red, each of its red sons is a clone in `F`. */
    ghost predicate RedKids(F: set<object>)
      reads this, left, right
    {
      red ==> (IsRed(left) ==> left in F) && (IsRed(right) ==> right in F)
    }

    /** The nodes a rotation in `insertFix` would rewire are clones in `F`: a
        red son together with its red inner grandson. */
    ghost predicate Touch(F: set<object>)
      reads this, left, right, if left == null then {} else {left.right},
        if right == null then {} else {right.left}
    {
      (IsRed(left) && IsRed(left.right) ==> left in F && left.right in F) &&
      (IsRed(right) && IsRed(right.left) ==> right in F && right.left in F)
    }

    /** A node of a version under construction: a clone in `F` whose
        footprint lies within `R` and `F`, and all of whose nodes that a
        later `insertFix` may rewire are clones in `F`. */
    ghost predicate Grown(R: set<object>, F: set<object>)
      reads this, left, right, if left == null then {} else {left.right},
        if right == null then {} else {right.left}
    {
      this in F && Repr <= R + F && Touch(F) && RedKids(F)
    }

    /** `insertFix(parent)` (lines 241-272) on a clone: afterwards the slot of
        `parent` that held this node holds `s`, which stands for the value
        `insertFix` computes. Only the clones in `F` change; the nodes it
        allocates are `G`. */
    method InsertFix(parent: RbTree<T>, ghost F: set<object>, ghost Old: set<object>) returns (ghost s: RbTree<T>, ghost G: set<object>)
      requires Valid() && this in F && parent in F && parent !in Repr
      requires parent.left == this || parent.right == this
      requires Touch(F) && RedKids(F)
      modifies F
      ensures old(parent.left) == this ==> parent.left == s && parent.right == old(parent.right)
      ensures old(parent.left) != this ==> parent.right == s && parent.left == old(parent.left)
      ensures parent.key == old(parent.key) && parent.red == old(parent.red) && parent.Repr == old(parent.Repr)
      ensures s.Valid() && s.Model() == Insertion.InsertFix(old(Model()))
      ensures fresh(G) && G !! Old && s in F + G && s.Repr <= old(Repr) + G && s.RedKids(F + G)
    {
      Colors(this);
      if IsRed(left) && IsRed(right) {
        if IsRed(left.left) || IsRed(left.right) || IsRed(right.left) || IsRed(right.right) {
          G := Recolor();
          s := this;
        } else {
          s, G := this, {};
        }
      } else if IsRed(left) {
        s, G := FixLeft(parent, F);
      } else if IsRed(right) {
        s, G := FixRight(parent, F);
      } else {
        s, G := this, {};
      }
    }

    /** Lines 245-249: this node turns red and both red sons are replaced
        by black copies `G`. */
    method Recolor() returns (ghost G: set<object>)
      requires Valid() && left != null && right != null
      modifies this
      ensures Stands(this, Node(true, old(key).value, Blacken(old(Model()).left), Blacken(old(Model()).right)), Repr)
      ensures key == old(key) && fresh(G) && Repr <= old(Repr) + G && G == {left, right}
      ensures !IsRed(left) && !IsRed(right)
    {
      var l, r := BlackSons();
      red, left, right, Repr := true, l, r, {this} + l.Repr + r.Repr;
      Recolored(this, l, r);
      G := {l, r};
    }

    /** Lines 247-248: black copies of the two sons, sharing their sons. */
    method BlackSons() returns (l: RbTree<T>, r: RbTree<T>)
      requires left != null && right != null && left.key.Some? && right.key.Some?
      ensures fresh(l) && fresh(r) && l != r
      ensures l.key == left.key && !l.red && l.left == left.left && l.right == left.right
      ensures r.key == right.key && !r.red && r.left == right.left && r.right == right.right
      ensures l.Repr == {l} + ReprOf(left.left) + ReprOf(left.right)
      ensures r.Repr == {r} + ReprOf(right.left) + ReprOf(right.right)
    {
      l := new RbTree.Make(left.key.value, false, left.left, left.right);
      r := new RbTree.Make(right.key.value, false, right.left, right.right);
    }

    /** Lines 252-260: a red left son and a black right son. A red inner
        grandson is first rotated up; a red outer grandson then makes this
        node red, its son a black copy, and the son takes this node's place. */
    method FixLeft(parent: RbTree<T>, ghost F: set<object>) returns (ghost s: RbTree<T>, ghost G: set<object>)
      requires Valid() && this in F && parent in F && parent !in Repr
      requires parent.left == this || parent.right == this
      requires IsRed(left) && Touch(F) && RedKids(F)
      modifies F
      ensures old(parent.left) == this ==> parent.left == s && parent.right == old(parent.right)
      ensures old(parent.left) != this ==> parent.right == s && parent.left == old(parent.left)
      ensures parent.key == old(parent.key) && parent.red == old(parent.red) && parent.Repr == old(parent.Repr)
      ensures s.Valid() && s.Model() == Insertion.FixLeft(old(Model()))
      ensures fresh(G) && s in F + G && s.Repr <= old(Repr) + G && s.RedKids(F + G)
    {
      Colors(this);
      if IsRed(left.right) {
        LiftLeft();
      }
      Colors(this);
      if IsRed(left.left) {
        s := PromoteLeft(parent);
        G := {s};
      } else {
        s, G := this, {};
      }
    }

    /** Lines 255-259: a red outer grandson on the left. This node turns red,
        its left son becomes a black copy `b`, and `b` is rotated into the
        slot of `parent` that held this node. */
    method PromoteLeft(parent: RbTree<T>) returns (ghost b: RbTree<T>)
      requires Valid() && left != null && parent !in Repr
      requires parent.left == this || parent.right == this
      modifies this, parent
      ensures old(parent.left) == this ==> parent.left == b && parent.right == old(parent.right)
      ensures old(parent.left) != this ==> parent.right == b && parent.left == old(parent.left)
      ensures parent.key == old(parent.key) && parent.red == old(parent.red) && parent.Repr == old(parent.Repr)
      ensures b.Valid() && b.Model() == Trees.RotateRight(Node(true, old(key).value, Blacken(old(Model()).left), old(Model()).right))
      ensures fresh(b) && !b.red && b.Repr <= old(Repr) + {b}
    {
      b := RedOverLeft();
      RotateRightValid(parent);
    }

    /** `rotateRight(parent)` on a valid node: its left son `b` takes its
        place in `parent` and stands for the rotated value. */
    method RotateRightValid(parent: RbTree<T>)
      requires Valid() && left != null && parent !in Repr
      requires parent.left == this || parent.right == this
      modifies this, left, parent
      ensures old(parent.left) == this ==> parent.left == old(left) && parent.right == old(parent.right)
      ensures old(parent.left) != this ==> parent.right == old(left) && parent.left == old(parent.left)
      ensures parent.key == old(parent.key) && parent.red == old(parent.red) && parent.Repr == old(parent.Repr)
      ensures old(left).Valid() && old(left).Model() == Trees.RotateRight(old(Model())) && old(left).Repr == old(Repr)
      ensures old(left).red == old(left.red)
    {
      var b := left;
      ghost var a, c, e := b.left, b.right, right;
      ghost var RA, RC, RE, OT := ReprOf(a), ReprOf(c), ReprOf(e), Repr;
      RotateFrame(this, b, a, c, e);
      Parts(this);
      Parts(b);
      ghost var A, C, E := Model().left.left, Model().left.right, Model().right;
      RotateRight(parent);
      Kept(a, c, e, A, C, E, RA, RC, RE);
      BuildRight(this, b, a, c, e, RA, RC, RE, OT, A, C, E);
    }

    /** Line 254: the left son is rotated left under this node, so its right
        son takes its place. Only the two rotated nodes and this node change. */
    method LiftLeft()
      requires Valid() && left != null && left.right != null
      modifies this, left, left.right
      ensures left == old(left.right) && right == old(right) && key == old(key) && red == old(red)
      ensures Stands(this, WithChild(old(Model()), true, Trees.RotateLeft(old(Model()).left)), old(Repr))
    {
      var l := left;
      ghost var d := l.right;
      Parts(this);
      l.RotateLeftValid(this);
      Replaced(this, true, d, Trees.RotateLeft(old(l.Model())), d.Repr);
    }

    /** Line 265: the mirror image of `LiftLeft`. */
    method LiftRight()
      requires Valid() && right != null && right.left != null
      modifies this, right, right.left
      ensures right == old(right.left) && left == old(left) && key == old(key) && red == old(red)
      ensures Stands(this, WithChild(old(Model()), false, Trees.RotateRight(old(Model()).right)), old(Repr))
    {
      var r := right;
      ghost var b := r.left;
      Parts(this);
      r.RotateRightValid(this);
      Replaced(this, false, b, Trees.RotateRight(old(r.Model())), b.Repr);
    }

    /** Lines 256-257: this node turns red and its left son is replaced by
        a black copy `b`. */
    method RedOverLeft() returns (ghost b: RbTree<T>)
      requires Valid() && left != null
      modifies this
      ensures Stands(this, Node(true, old(key).value, Blacken(old(Model()).left), old(Model()).right), Repr)
      ensures left == b && fresh(b) && !b.red && right == old(right) && key == old(key) && Repr <= old(Repr) + {b}
    {
      var L := left;
      var l := new RbTree.Make(L.key.value, false, L.left, L.right);
      red, left := true, l;
      Repr := {this} + l.Repr + ReprOf(right);
      Recopied(l, L);
      Replaced(this, true, l, old(L.Model()).(red := false), l.Repr);
      b := l;
    }

    /** Lines 267-268: the mirror image of `RedOverLeft`. */
    method RedOverRight() returns (ghost d: RbTree<T>)
      requires Valid() && right != null
      modifies this
      ensures Stands(this, Node(true, old(key).value, old(Model()).left, Blacken(old(Model()).right)), Repr)
      ensures right == d && fresh(d) && !d.red && left == old(left) && key == old(key) && Repr <= old(Repr) + {d}
    {
      var R := right;
      var r := new RbTree.Make(R.key.value, false, R.left, R.right);
      red, right := true, r;
      Repr := {this} + ReprOf(left) + r.Repr;
      Recopied(r, R);
      Replaced(this, false, r, old(R.Model()).(red := false), r.Repr);
      d := r;
    }

    /** Lines 263-270: the mirror image of `FixLeft`. */
    method FixRight(parent: RbTree<T>, ghost F: set<object>) returns (ghost s: RbTree<T>, ghost G: set<object>)
      requires Valid() && this in F && parent in F && parent !in Repr
      requires parent.left == this || parent.right == this
      requires IsRed(right) && Touch(F) && RedKids(F)
      modifies F
      ensures old(parent.left) == this ==> parent.left == s && parent.right == old(parent.right)
      ensures old(parent.left) != this ==> parent.right == s && parent.left == old(parent.left)
      ensures parent.key == old(parent.key) && parent.red == old(parent.red) && parent.Repr == old(parent.Repr)
      ensures s.Valid() && s.Model() == Insertion.FixRight(old(Model()))
      ensures fresh(G) && s in F + G && s.Repr <= old(Repr) + G && s.RedKids(F + G)
    {
      Colors(this);
      if IsRed(right.left) {
        LiftRight();
      }
      Colors(this);
      if IsRed(right.right) {
        s := PromoteRight(parent);
        G := {s};
      } else {
        s, G := this, {};
      }
    }

    /** Lines 266-269: the mirror image of `PromoteLeft`. */
    method PromoteRight(parent: RbTree<T>) returns (ghost d: RbTree<T>)
      requires Valid() && right != null && parent !in Repr
      requires parent.left == this || parent.right == this
      modifies this, parent
      ensures old(parent.left) == this ==> parent.left == d && parent.right == old(parent.right)
      ensures old(parent.left) != this ==> parent.right == d && parent.left == old(parent.left)
      ensures parent.key == old(parent.key) && parent.red == old(parent.red) && parent.Repr == old(parent.Repr)
      ensures d.Valid() && d.Model() == Trees.RotateLeft(Node(true, old(key).value, old(Model()).left, Blacken(old(Model()).right)))
      ensures fresh(d) && !d.red && d.Repr <= old(Repr) + {d}
    {
      d := RedOverRight();
      RotateLeftValid(parent);
    }

    /** `rotateLeft(parent)` on a valid node: the mirror image of
        `RotateRightValid`. */
    method RotateLeftValid(parent: RbTree<T>)
      requires Valid() && right != null && parent !in Repr
      requires parent.left == this || parent.right == this
      modifies this, right, parent
      ensures old(parent.left) == this ==> parent.left == old(right) && parent.right == old(parent.right)
      ensures old(parent.left) != this ==> parent.right == old(right) && parent.left == old(parent.left)
      ensures parent.key == old(parent.key) && parent.red == old(parent.red) && parent.Repr == old(parent.Repr)
      ensures old(right).Valid() && old(right).Model() == Trees.RotateLeft(old(Model())) && old(right).Repr == old(Repr)
      ensures old(right).red == old(right.red)
    {
      var d := right;
      ghost var a, c, e := left, d.left, d.right;
      ghost var RA, RC, RE, OT := ReprOf(a), ReprOf(c), ReprOf(e), Repr;
      RotateFrame(this, d, a, c, e);
      Parts(this);
      Parts(d);
      ghost var A, C, E := Model().left, Model().right.left, Model().right.right;
      RotateLeft(parent);
      Kept(a, c, e, A, C, E, RA, RC, RE);
      BuildLeft(this, d, a, c, e, RA, RC, RE, OT, A, C, E);
    }

    /** `insertCopy(insKey)` (lines 201-236): `this` when the key is already
        present (the descent compares hashes, then `equals`), otherwise a
        clone `r` of this node whose son on the side of the descent was
        replaced, after `insertFix`, by the insertion into that son. Nothing
        that existed before changes; the nodes of the result that are new
        are `F`, and every node a later `insertFix` may rewire is in `F`. */
    method InsertCopy(h: T -> int, x: T, ghost Old: set<object>) returns (r: RbTree<T>, ghost F: set<object>)
      requires Valid() && RB(Model()) && Repr <= Old
      modifies {}
      decreases Repr, 2
      ensures Insertion.InsertCopy(h, old(Model()), x).None? <==> r == this
      ensures r == this ==> F == {}
      ensures r != this ==>
        fresh(F) && r.Grown(old(Repr), F) &&
        Stands(r, Insertion.InsertCopy(h, old(Model()), x).value, r.Repr)
    {
      if x == key.value {
        return this, {};
      }
      if h(x) < h(key.value) {
        r, F := InsertLeft(h, x, Old);
      } else {
        r, F := InsertRight(h, x, Old);
      }
    }

    /** Lines 207-218: the insertion descends into the left son. */
    method InsertLeft(h: T -> int, x: T, ghost Old: set<object>) returns (r: RbTree<T>, ghost F: set<object>)
      requires Valid() && RB(Model()) && Repr <= Old && x != key.value && h(x) < h(key.value)
      modifies {}
      decreases Repr, 1
      ensures Insertion.InsertBelow(h, old(Model()).left, x).None? <==> r == this
      ensures r == this ==> F == {}
      ensures r != this ==>
        fresh(F) && r.Grown(old(Repr), F) &&
        Stands(r, WithChild(old(Model()), true, Insertion.InsertBelow(h, old(Model()).left, x).value), r.Repr)
    {
      ghost var Y, RO := Model(), ReprOf(right);
      Parts(this);
      if left == null {
        var n := new RbTree.Leaf(x);
        r := new RbTree.Make(key.value, red, n, right);
        Keep(right, Y.right, RO);
        Attached(r, true, n, Node(true, x, Nil, Nil), right, Y, RO, {r, n});
        F := {r, n};
      } else {
        r, F := CopyLeft(h, x, Old);
      }
    }

    /** Lines 212-217: the left son is copied with the key inserted; unless the
        key was found there, a clone of this node takes the copy as its
        left son and `insertFix` repairs it. */
    method CopyLeft(h: T -> int, x: T, ghost Old: set<object>) returns (r: RbTree<T>, ghost F: set<object>)
      requires Valid() && RB(Model()) && Repr <= Old && left != null && x != key.value && h(x) < h(key.value)
      modifies {}
      decreases Repr, 0
      ensures Insertion.InsertBelow(h, old(Model()).left, x).None? <==> r == this
      ensures r == this ==> F == {}
      ensures r != this ==>
        fresh(F) && r.Grown(old(Repr), F) &&
        Stands(r, WithChild(old(Model()), true, Insertion.InsertBelow(h, old(Model()).left, x).value), r.Repr)
    {
      ghost var Y, R0 := Model(), Repr;
      Parts(this);
      var n, Fn := left.InsertCopy(h, x, Old);
      if n == left {
        return this, {};
      }
      Keep(this, Y, R0);
      ghost var N := n.Model();
      assert Insertion.InsertBelow(h, Y.left, x) == Some(Insertion.InsertFix(N));
      ghost var G;
      r, G := FixedLeft(n, Fn, Old, WithChild(Y, true, Insertion.InsertFix(N)));
      FreshUnion(Fn, G);
      F := Fn + G;
    }

    /** Lines 213-216: a clone `r` of this node takes the new left son `n`,
        which `insertFix` then repairs under `r`; `V` is the value this
        makes. */
    method FixedLeft(n: RbTree<T>, ghost Fn: set<object>, ghost Old: set<object>, ghost V: Tree<T>) returns (r: RbTree<T>, ghost G: set<object>)
      requires Valid() && RB(Model()) && left != null && Repr <= Old
      requires n.Valid() && Fn !! Old && n.Grown(left.Repr, Fn)
      requires V == WithChild(Model(), true, Insertion.InsertFix(n.Model()))
      modifies Fn
      ensures fresh(G) && r in G && r.Grown(old(Repr), Fn + G)
      ensures Stands(r, V, r.Repr)
    {
      ghost var Y, LR, RR, N, NR, Y0 := Model(), left.Repr, ReprOf(right), n.Model(), n.Repr, Repr;
      Parts(this);
      r := new RbTree.Make(key.value, red, n, right);
      Keep(n, N, NR);
      Keep(right, Child(Y, false), RR);
      ghost var H := r.Repair(true, n, Fn, Old, Y, LR, right, RR);
      G := {r} + H;
      FreshUnion({r}, H);
      GrownMono(r, LR + RR, Y0, Fn + {r} + H, Fn + G);
    }

    /** The part of `insertCopy` after the clone: this clone of a node that
        stood for `Y` holds on `side` the new son `n` (whose old counterpart
        had footprint `NR`) and on the other side the old son `O`;
        `n.insertFix(this)` repairs the son, and the footprint is recomputed. */
    method Repair(side: bool, n: RbTree<T>, ghost Fn: set<object>, ghost Old: set<object>, ghost Y: Tree<T>,
                  ghost NR: set<object>, ghost O: RbTree?<T>, ghost RO: set<object>) returns (ghost H: set<object>)
      requires Y.Node? && RB(Y) && key == Some(Y.key) && red == Y.red
      requires side ==> left == n && right == O
      requires !side ==> right == n && left == O
      requires n.Valid() && Fn !! Old && n.Grown(NR, Fn)
      requires NR <= Old && RO <= Old && NR !! RO && Stands(O, Child(Y, !side), RO)
      requires this !in Old && this !in Fn
      modifies Fn, this
      ensures fresh(H) && Grown(NR + RO, Fn + {this} + H)
      ensures Stands(this, WithChild(Y, side, Insertion.InsertFix(old(n.Model()))), Repr)
    {
      ghost var N, NR0 := n.Model(), n.Repr;
      ghost var s: RbTree<T>;
      s, H := n.InsertFix(this, Fn + {this}, Old);
      ghost var S := s.Model();
      assert S == Insertion.InsertFix(N);
      assert this !in H && H !! RO;
      Fresher(s.Repr, NR0, H, Fn, NR, RO, this);
      Keep(O, Child(Y, !side), RO);
      Seal(side, s, S, O, Y, RO, Fn + {this} + H);
    }

    /** After `insertFix` under this clone: the son on `side` is `s`, which
        stands for `S`, the other son `O` still stands for its part of `Y`.
        The footprint is recomputed (the repair may have made new nodes), and
        then this clone stands for `Y` with that son replaced. */
    method Seal(side: bool, ghost s: RbTree<T>, ghost S: Tree<T>, ghost O: RbTree?<T>, ghost Y: Tree<T>,
                ghost RO: set<object>, ghost F: set<object>)
      requires Y.Node? && NoRedRed(Y) && key == Some(Y.key) && red == Y.red
      requires side ==> left == s && right == O
      requires !side ==> right == s && left == O
      requires Stands(s, S, s.Repr) && Stands(O, Child(Y, !side), RO)
      requires s in F && s.RedKids(F)
      requires this !in s.Repr && this !in RO && s.Repr !! RO
      modifies this
      ensures Repr == {this} + s.Repr + RO && key == old(key) && red == old(red)
      ensures left == old(left) && right == old(right)
      ensures Stands(this, WithChild(Y, side, S), Repr) && Touch(F) && RedKids(F)
    {
      ghost var SR := s.Repr;
      Repr := {this} + SR + RO;
      Keep(s, S, SR);
      Keep(O, Child(Y, !side), RO);
      Attached(this, side, s, S, O, Y, RO, F);
    }

    /** Lines 221-233: the mirror image of `InsertLeft`. */
    method InsertRight(h: T -> int, x: T, ghost Old: set<object>) returns (r: RbTree<T>, ghost F: set<object>)
      requires Valid() && RB(Model()) && Repr <= Old && x != key.value && !(h(x) < h(key.value))
      modifies {}
      decreases Repr, 1
      ensures Insertion.InsertBelow(h, old(Model()).right, x).None? <==> r == this
      ensures r == this ==> F == {}
      ensures r != this ==>
        fresh(F) && r.Grown(old(Repr), F) &&
        Stands(r, WithChild(old(Model()), false, Insertion.InsertBelow(h, old(Model()).right, x).value), r.Repr)
    {
      ghost var Y, RO := Model(), ReprOf(left);
      Parts(this);
      if right == null {
        var n := new RbTree.Leaf(x);
        r := new RbTree.Make(key.value, red, left, n);
        Keep(left, Y.left, RO);
        Attached(r, false, n, Node(true, x, Nil, Nil), left, Y, RO, {r, n});
        F := {r, n};
      } else {
        r, F := CopyRight(h, x, Old);
      }
    }

    /** Lines 227-232: the right son is copied with the key inserted; unless the
        key was found there, a clone of this node takes the copy as its
        right son and `insertFix` repairs it. */
    method CopyRight(h: T -> int, x: T, ghost Old: set<object>) returns (r: RbTree<T>, ghost F: set<object>)
      requires Valid() && RB(Model()) && Repr <= Old && right != null && x != key.value && !(h(x) < h(key.value))
      modifies {}
      decreases Repr, 0
      ensures Insertion.InsertBelow(h, old(Model()).right, x).None? <==> r == this
      ensures r == this ==> F == {}
      ensures r != this ==>
        fresh(F) && r.Grown(old(Repr), F) &&
        Stands(r, WithChild(old(Model()), false, Insertion.InsertBelow(h, old(Model()).right, x).value), r.Repr)
    {
      ghost var Y, R0 := Model(), Repr;
      Parts(this);
      var n, Fn := right.InsertCopy(h, x, Old);
      if n == right {
        return this, {};
      }
      Keep(this, Y, R0);
      ghost var N := n.Model();
      assert Insertion.InsertBelow(h, Y.right, x) == Some(Insertion.InsertFix(N));
      ghost var G;
      r, G := FixedRight(n, Fn, Old, WithChild(Y, false, Insertion.InsertFix(N)));
      FreshUnion(Fn, G);
      F := Fn + G;
    }

    /** Lines 228-231: the mirror image of `FixedLeft`. */
    method FixedRight(n: RbTree<T>, ghost Fn: set<object>, ghost Old: set<object>, ghost V: Tree<T>) returns (r: RbTree<T>, ghost G: set<object>)
      requires Valid() && RB(Model()) && right != null && Repr <= Old
      requires n.Valid() && Fn !! Old && n.Grown(right.Repr, Fn)
      requires V == WithChild(Model(), false, Insertion.InsertFix(n.Model()))
      modifies Fn
      ensures fresh(G) && r in G && r.Grown(old(Repr), Fn + G)
      ensures Stands(r, V, r.Repr)
    {
      ghost var Y, RR, LR, N, NR, Y0 := Model(), right.Repr, ReprOf(left), n.Model(), n.Repr, Repr;
      Parts(this);
      r := new RbTree.Make(key.value, red, left, n);
      Keep(n, N, NR);
      Keep(left, Child(Y, true), LR);
      ghost var H := r.Repair(false, n, Fn, Old, Y, RR, left, LR);
      G := {r} + H;
      FreshUnion({r}, H);
      GrownMono(r, RR + LR, Y0, Fn + {r} + H, Fn + G);
    }

    /** `insert(key)` (lines 176-196) on the head of a version: a null key is
        an error; otherwise the result is the head of a version whose root is
        the value the insertion computes, and it is this very head exactly
        when the descent finds the key. No node of this version changes. */
    method Insert(h: T -> int, k: Option<T>) returns (res: Result<RbTree<T>>)
      requires IsHead() && RB(Root())
      modifies {}
      ensures k.None? <==> res.NullKey?
      ensures res.Ok? ==> res.value.IsHead() && Insertion.Insert(h, old(Root()), k) == Ok(res.value.Root())
      ensures res.Ok? ==> (res.value == this <==> old(Root()) != Nil && Lookup.FindNode(h, old(Root()), k.value).Some?)
      ensures res.Ok? && res.value != this ==> fresh(res.value)
      ensures IsHead() && Root() == old(Root())
    {
      if k.None? {
        return NullKey;
      }
      var x := k.value;
      if left == null {
        var t := Planted(x);
        Unmoved(this);
        return Ok(t);
      }
      ghost var R := Root();
      var n, Fn := left.InsertCopy(h, x, Repr);
      Insertion.InsertCopyFinds(h, R, x);
      Unmoved(this);
      if n == left {
        return Ok(this);
      }
      var t := Rerooted(n, Fn, Insertion.InsertFix(n.Model()));
      Unmoved(this);
      return Ok(t);
    }

    /** Lines 181-185: a clone of the empty head over a new leaf painted
        black. */
    method Planted(x: T) returns (t: RbTree<T>)
      requires IsHead() && left == null
      ensures fresh(t) && t.IsHead() && t.Root() == Node(false, x, Nil, Nil)
    {
      t := new RbTree.Copy(this);
      var l := new RbTree.Leaf(x);
      l.red := false;
      t.left := l;
      t.Repr := {t, l};
    }

    /** Lines 189-192: a clone `t` of this head takes the copied root `n`. */
    method Rerooted(n: RbTree<T>, ghost Fn: set<object>, ghost V: Tree<T>) returns (t: RbTree<T>)
      requires IsHead() && left != null
      requires n.Valid() && Fn !! Repr && n.Grown(left.Repr, Fn) && V == Insertion.InsertFix(n.Model())
      modifies Fn
      ensures fresh(t) && t.IsHead() && t.Root() == Blacken(V)
    {
      ghost var Old := Repr;
      t := new RbTree.Copy(this);
      t.left := n;
      Unchanged(n);
      assert n.Grown(Old, Fn);
      t.Rooted(n, Fn, Old, V);
      t.BlackRoot();
    }

    /** Line 191: on the clone head over the copied root `n`,
        `n.insertFix(this)` repairs the root. */
    method Rooted(n: RbTree<T>, ghost Fn: set<object>, ghost Old: set<object>, ghost V: Tree<T>)
      requires key.None? && !red && right == null && left == n
      requires n.Valid() && Fn !! Old && n.Grown(Old, Fn) && V == Insertion.InsertFix(n.Model())
      requires this !in Old && this !in Fn
      modifies Fn, this
      ensures IsHead() && Root() == V && (left in Fn || fresh(left))
    {
      ghost var s, G := n.InsertFix(this, Fn + {this}, Old);
      assert this !in s.Repr;
      Repr := {this} + s.Repr;
      Headed(this);
    }

    /** Line 192: the root of this head is painted black. */
    method BlackRoot()
      requires IsHead() && left != null
      modifies left
      ensures IsHead() && Root() == Blacken(old(Root()))
    {
      left.PaintBlack();
      Headed(this);
    }

    /** `red = false` on a node (line 192): it stands for its old value
        painted black. */
    method PaintBlack()
      requires Valid()
      modifies this
      ensures Valid() && Model() == Blacken(old(Model())) && Repr == old(Repr)
    {
      red := false;
      Repainted(this);
    }
  }

  /** The colours `isRed` sees on the sons and grandsons of a valid node are
      those of the value it stands for. */
  lemma Colors<T>(n: RbTree<T>)
    requires n.Valid()
    ensures n.IsRed(n.left) == IsRed(n.Model().left) && n.IsRed(n.right) == IsRed(n.Model().right)
    ensures n.left != null ==>
      n.IsRed(n.left.left) == IsRed(n.Model().left.left) && n.IsRed(n.left.right) == IsRed(n.Model().left.right)
    ensures n.right != null ==>
      n.IsRed(n.right.left) == IsRed(n.Model().right.left) && n.IsRed(n.right.right) == IsRed(n.Model().right.right)
  {
  }

  /** The clone `t` of a node standing for `Y` (a tree without a red node
      over a red son) holds on `side` the son `s`, which stands for `S`, and
      on the other side its old son `O`, which stands for the same value as
      before. Then `t` stands for `Y` with that son replaced, and the red
      nodes a later `insertFix` may rewire are in `F`. */
  lemma Attached<T>(t: RbTree<T>, side: bool, s: RbTree<T>, S: Tree<T>, O: RbTree?<T>, Y: Tree<T>,
                    RO: set<object>, F: set<object>)
    requires Y.Node? && NoRedRed(Y) && t.key == Some(Y.key) && t.red == Y.red
    requires side ==> t.left == s && t.right == O
    requires !side ==> t.right == s && t.left == O
    requires Stands(s, S, s.Repr) && Stands(O, Child(Y, !side), RO)
    requires s in F && s.RedKids(F)
    requires t !in s.Repr && t !in RO && s.Repr !! RO && t.Repr == {t} + s.Repr + RO
    ensures Stands(t, WithChild(Y, side, S), t.Repr) && t.Touch(F) && t.RedKids(F)
  {
    if side {
      Build(t, S, Y.right, s.Repr, RO);
    } else {
      Build(t, Y.left, S, RO, s.Repr);
    }
    if O != null {
      Colors(O);
    }
  }

  /** Set algebra of `insertCopy`: the footprint `S` of the repaired son
      lies in the old son's footprint `LR`, the clones `Fn` made below and
      the nodes `G` made by `insertFix`; none of them is the clone `r` or in
      the other son's footprint `RR`. */
  lemma Fresher(S: set<object>, NR: set<object>, G: set<object>, Fn: set<object>,
                LR: set<object>, RR: set<object>, r: object)
    requires S <= NR + G && NR <= LR + Fn && LR !! RR && Fn !! RR && G !! RR
    requires r !in NR && r !in G && r !in RR
    ensures r !in S && S !! RR && S <= LR + Fn + G
  {
  }

  /** A black node without a key over a valid left subtree and nothing on
      the right, whose footprint holds itself and that subtree, is a head. */
  lemma Headed<T>(t: RbTree<T>)
    requires t.key.None? && !t.red && t.right == null && t.left != null
    requires t.left.Valid() && t !in t.left.Repr && t in t.Repr && t.left.Repr <= t.Repr
    ensures t.IsHead() && t.Root() == t.left.Model()
  {
  }

  /** A node of which only the colour changed stands for its old value in
      its new colour. */
  twostate lemma Repainted<T>(n: RbTree<T>)
    requires old(n.Valid()) && unchanged(old(n.Repr) - {n})
    requires n.key == old(n.key) && n.left == old(n.left) && n.right == old(n.right) && n.Repr == old(n.Repr)
    ensures old(n.Model()).Node? && Stands(n, old(n.Model()).(red := n.red), n.Repr)
  {
    PartsOld(n);
    var X := old(n.Repr) - {n};
    Narrow(X, old(ReprOf(n.left)));
    Narrow(X, old(ReprOf(n.right)));
    Keep(n.left, old(n.Model()).left, old(ReprOf(n.left)));
    Keep(n.right, old(n.Model()).right, old(ReprOf(n.right)));
    Build(n, old(n.Model()).left, old(n.Model()).right, old(ReprOf(n.left)), old(ReprOf(n.right)));
  }

  /** A node grown from the footprint `R1` with clones `F1` is also grown
      from any larger footprint with any larger set of clones. */
  lemma GrownMono<T>(r: RbTree<T>, R1: set<object>, R2: set<object>, F1: set<object>, F2: set<object>)
    requires r.Grown(R1, F1) && R1 <= R2 && F1 <= F2
    ensures r.Grown(R2, F2)
  {
  }

  /** A head none of whose nodes changed still holds the same version. */
  twostate lemma Unmoved<T>(t: RbTree<T>)
    requires old(t.IsHead()) && unchanged(old(t.Repr))
    ensures t.IsHead() && t.Root() == old(t.Root()) && t.Repr == old(t.Repr)
  {
    if t.left != null {
      Unchanged(t.left);
    }
  }

  /** Two sets of objects allocated since the start of a method. */
  twostate lemma FreshUnion(new A: set<object>, new B: set<object>)
    requires fresh(A) && fresh(B)
    ensures fresh(A + B)
  {
  }

  /** Three subtrees whose nodes did not change still stand for the same
      values. */
  twostate lemma Kept<T>(new a: RbTree?<T>, new c: RbTree?<T>, new e: RbTree?<T>, new A: Tree<T>, new C: Tree<T>, new E: Tree<T>,
                         new RA: set<object>, new RC: set<object>, new RE: set<object>)
    requires old(allocated(a) && allocated(c) && allocated(e) && allocated(A) && allocated(C) && allocated(E))
    requires old(allocated(RA) && allocated(RC) && allocated(RE))
    requires old(Stands(a, A, RA) && Stands(c, C, RC) && Stands(e, E, RE))
    requires unchanged(RA + RC + RE)
    ensures Stands(a, A, RA) && Stands(c, C, RC) && Stands(e, E, RE)
  {
    Narrow(RA + RC + RE, RA);
    Narrow(RA + RC + RE, RC);
    Narrow(RA + RC + RE, RE);
    Keep(a, A, RA);
    Keep(c, C, RC);
    Keep(e, E, RE);
  }

  /** A subtree whose nodes did not change still stands for the same value. */
  twostate lemma Keep<T>(n: RbTree?<T>, new v: Tree<T>, new r: set<object>)
    requires n == null ==> v == Nil && r == {}
    requires n != null ==> old(n.Valid()) && old(n.Model()) == v && old(n.Repr) == r
    requires unchanged(r)
    ensures Stands(n, v, r)
  {
    Unchanged(n);
  }

  twostate lemma Narrow(X: set<object>, new Y: set<object>)
    requires unchanged(X) && Y <= X
    ensures unchanged(Y)
  {
  }

  /** `Parts` in the previous state. */
  twostate lemma PartsOld<T>(n: RbTree<T>)
    requires old(n.Valid())
    ensures old(Stands(n.left, n.Model().left, ReprOf(n.left)) && Stands(n.right, n.Model().right, ReprOf(n.right)))
    ensures old(n !in ReprOf(n.left) + ReprOf(n.right) && ReprOf(n.left) !! ReprOf(n.right))
    ensures old(n.Repr == {n} + ReprOf(n.left) + ReprOf(n.right) && n.key.Some? && n.Model().key == n.key.value)
  {
  }

  /** `l` is a new node with the key and sons `L` had; it stands for `L`'s
      old value in `l`'s colour. */
  twostate lemma Recopied<T>(new l: RbTree<T>, L: RbTree<T>)
    requires old(L.Valid()) && l !in old(L.Repr)
    requires l.key == old(L.key) && l.left == old(L.left) && l.right == old(L.right)
    requires l.Repr == {l} + old(ReprOf(L.left) + ReprOf(L.right))
    requires unchanged(old(L.Repr) - {L})
    ensures old(L.Model()).Node? && Stands(l, old(L.Model()).(red := l.red), l.Repr)
    ensures l.Repr <= old(L.Repr) + {l}
  {
    PartsOld(L);
    var X := old(L.Repr) - {L};
    Narrow(X, old(ReprOf(L.left)));
    Narrow(X, old(ReprOf(L.right)));
    Keep(l.left, old(L.Model()).left, old(ReprOf(L.left)));
    Keep(l.right, old(L.Model()).right, old(ReprOf(L.right)));
    Build(l, old(L.Model()).left, old(L.Model()).right, old(ReprOf(L.left)), old(ReprOf(L.right)));
  }

  /** Lines 246-248: `t` over black copies `l`, `r` of its two red sons. */
  twostate lemma Recolored<T>(t: RbTree<T>, new l: RbTree<T>, new r: RbTree<T>)
    requires old(t.Valid()) && old(t.left) != null && old(t.right) != null
    requires l !in old(t.Repr) && r !in old(t.Repr) && l != r
    requires l.key == old(t.left.key) && !l.red && l.left == old(t.left.left) && l.right == old(t.left.right)
    requires r.key == old(t.right.key) && !r.red && r.left == old(t.right.left) && r.right == old(t.right.right)
    requires l.Repr == {l} + old(ReprOf(t.left.left) + ReprOf(t.left.right))
    requires r.Repr == {r} + old(ReprOf(t.right.left) + ReprOf(t.right.right))
    requires t.key == old(t.key) && t.left == l && t.right == r && t.Repr == {t} + l.Repr + r.Repr
    requires unchanged(old(t.Repr) - {t})
    ensures Stands(t, Node(t.red, old(t.key).value, Blacken(old(t.Model()).left), Blacken(old(t.Model()).right)), t.Repr)
    ensures t.Repr <= old(t.Repr) + {l, r}
  {
    PartsOld(t);
    var L, R := old(t.left), old(t.right);
    var X := old(t.Repr) - {t};
    Narrow(X, old(L.Repr) - {L});
    Narrow(X, old(R.Repr) - {R});
    Recopied(l, L);
    Recopied(r, R);
    Build(t, Blacken(old(t.Model()).left), Blacken(old(t.Model()).right), l.Repr, r.Repr);
  }

  /** `t` keeps its key and the son on the side other than `side`, none of
      whose nodes changed; the slot on `side` now holds `c`, which stands
      for `V` with footprint `RC`. Then `t` stands for its old value with
      that son replaced, in `t`'s current colour. */
  twostate lemma Replaced<T>(t: RbTree<T>, new side: bool, new c: RbTree?<T>, new V: Tree<T>, new RC: set<object>)
    requires old(t.Valid()) && t.key == old(t.key)
    requires side ==> t.left == c && t.right == old(t.right)
    requires !side ==> t.right == c && t.left == old(t.left)
    requires Stands(c, V, RC) && t !in RC
    requires RC !! old(ReprOf(if side then t.right else t.left))
    requires unchanged(old(ReprOf(if side then t.right else t.left)))
    requires t.Repr == {t} + RC + old(ReprOf(if side then t.right else t.left))
    ensures Stands(t, Paint(WithChild(old(t.Model()), side, V), t.red), t.Repr)
  {
    PartsOld(t);
    var M := old(t.Model());
    if side {
      Keep(t.right, M.right, old(ReprOf(t.right)));
      Build(t, V, M.right, RC, old(ReprOf(t.right)));
    } else {
      Keep(t.left, M.left, old(ReprOf(t.left)));
      Build(t, M.left, V, old(ReprOf(t.left)), RC);
    }
  }

  /** The value of a possibly null child. */
  ghost function Sub<T>(n: RbTree?<T>): Tree<T>
    reads n, if n == null then {} else n.Repr
    requires n != null ==> n.Valid()
  {
    if n == null then Nil else n.Model()
  }

  /** A subtree none of whose nodes changed is still valid and stands for
      the same value. */
  twostate lemma Unchanged<T>(n: RbTree?<T>)
    requires n != null ==> old(n.Valid()) && unchanged(old(n.Repr))
    ensures n != null ==> n.Valid() && n.Model() == old(n.Model()) && n.Repr == old(n.Repr)
  {
  }

  /** The facts `Valid()` gives about the two children of a node. */
  lemma Parts<T>(n: RbTree<T>)
    requires n.Valid()
    ensures Stands(n.left, n.Model().left, ReprOf(n.left)) && Stands(n.right, n.Model().right, ReprOf(n.right))
    ensures n !in ReprOf(n.left) + ReprOf(n.right) && ReprOf(n.left) !! ReprOf(n.right)
    ensures n.Repr == {n} + ReprOf(n.left) + ReprOf(n.right) && n.key.Some?
  {
  }

  /** A node over two children that stand for `A` and `B` stands for the
      node with those subtrees. */
  lemma Build<T>(n: RbTree<T>, A: Tree<T>, B: Tree<T>, RA: set<object>, RB: set<object>)
    requires n.key.Some? && Stands(n.left, A, RA) && Stands(n.right, B, RB)
    requires n !in RA + RB && RA !! RB && n.Repr == {n} + RA + RB
    ensures Stands(n, Node(n.red, n.key.value, A, B), n.Repr)
  {
  }

  /** A node over two valid, disjoint subtrees that do not contain it, with
      the footprint they give, is valid. */
  lemma Assemble<T>(n: RbTree<T>)
    requires n.key.Some?
    requires n.left != null ==> n.left.Valid() && n !in n.left.Repr
    requires n.right != null ==> n.right.Valid() && n !in n.right.Repr
    requires ReprOf(n.left) !! ReprOf(n.right)
    requires n.Repr == {n} + ReprOf(n.left) + ReprOf(n.right)
    ensures n.Valid() && n.Model() == Node(n.red, n.key.value, Sub(n.left), Sub(n.right))
  {
  }

  /** `n` is null and stands for `Nil`, or is valid, stands for `v` and has
      footprint `r`. */
  ghost predicate Stands<T>(n: RbTree?<T>, v: Tree<T>, r: set<object>)
    reads n, ReprOf(n)
  {
    if n == null then v == Nil && r == {} else n.Valid() && n.Model() == v && n.Repr == r
  }

  /** After `rotateLeft` on `t`, whose subtrees `a`, `c`, `e` still stand
      for `A`, `C`, `E`: its old right child `d` stands for the rotated value. */
  lemma BuildLeft<T>(t: RbTree<T>, d: RbTree<T>, a: RbTree?<T>, c: RbTree?<T>, e: RbTree?<T>,
                     RA: set<object>, RC: set<object>, RE: set<object>, OT: set<object>,
                     A: Tree<T>, C: Tree<T>, E: Tree<T>)
    requires t.key.Some? && d.key.Some? && t != d
    requires t.left == a && t.right == c && d.left == t && d.right == e
    requires Stands(a, A, RA) && Stands(c, C, RC) && Stands(e, E, RE)
    requires t.Repr == {t} + RA + RC && d.Repr == OT && OT == {t, d} + RA + RC + RE
    requires t !in RA + RC + RE && d !in RA + RC + RE && RA !! RC && RA !! RE && RC !! RE
    ensures d.Valid() && d.Model() == Node(d.red, d.key.value, Node(t.red, t.key.value, A, C), E)
  {
    Footprints(t, d, RA, RC, RE, OT, t.Repr);
    Assemble(t);
    Assemble(d);
  }

  /** After `rotateRight` on `t`: the mirror image of `BuildLeft`. */
  lemma BuildRight<T>(t: RbTree<T>, b: RbTree<T>, a: RbTree?<T>, c: RbTree?<T>, e: RbTree?<T>,
                      RA: set<object>, RC: set<object>, RE: set<object>, OT: set<object>,
                      A: Tree<T>, C: Tree<T>, E: Tree<T>)
    requires t.key.Some? && b.key.Some? && t != b
    requires b.left == a && t.left == c && t.right == e && b.right == t
    requires Stands(a, A, RA) && Stands(c, C, RC) && Stands(e, E, RE)
    requires t.Repr == {t} + RC + RE && b.Repr == OT && OT == {t, b} + RA + RC + RE
    requires t !in RA + RC + RE && b !in RA + RC + RE && RA !! RC && RA !! RE && RC !! RE
    ensures b.Valid() && b.Model() == Node(b.red, b.key.value, A, Node(t.red, t.key.value, C, E))
  {
    Footprints(t, b, RC, RE, RA, OT, t.Repr);
    Assemble(t);
    Assemble(b);
  }

  /** Before a rotation of `t` with its child `d` on the side the subtrees
      say: `a`, `c` and `e` are disjoint and contain neither node. */
  lemma RotateFrame<T>(t: RbTree<T>, d: RbTree<T>, a: RbTree?<T>, c: RbTree?<T>, e: RbTree?<T>)
    requires t.Valid()
    requires (t.right == d && a == t.left && c == d.left && e == d.right) ||
             (t.left == d && a == d.left && c == d.right && e == t.right)
    ensures t !in ReprOf(a) + ReprOf(c) + ReprOf(e) && d !in ReprOf(a) + ReprOf(c) + ReprOf(e)
    ensures ReprOf(a) !! ReprOf(c) && ReprOf(a) !! ReprOf(e) && ReprOf(c) !! ReprOf(e)
    ensures t.Repr == {t, d} + ReprOf(a) + ReprOf(c) + ReprOf(e)
    ensures d != t && d.Valid()
  {
    assert d.Valid();
  }

  /** Set algebra of a rotation: the footprint of the node that moves down
      (`TR`) and the one that moves up (`OT`, unchanged). */
  lemma Footprints(t: object, d: object, R1: set<object>, R2: set<object>, R3: set<object>,
                   OT: set<object>, TR: set<object>)
    requires OT == {t, d} + R1 + R2 + R3 && TR == {t} + R1 + R2 && t != d
    requires t !in R3 && d !in R1 + R2 + R3 && R1 !! R3 && R2 !! R3
    ensures d !in TR && TR !! R3 && OT == {d} + TR + R3 && OT == {d} + R3 + TR
  {
  }

  /** A new node over two disjoint subtrees standing for `L` and `R`. */
  method Joined<T>(k: T, red: bool, l: RbTree?<T>, ghost L: Tree<T>, rt: RbTree?<T>, ghost R: Tree<T>)
    returns (n: RbTree<T>)
    requires Stands(l, L, ReprOf(l)) && Stands(rt, R, ReprOf(rt)) && ReprOf(l) !! ReprOf(rt)
    ensures fresh(n) && n.left == l && n.right == rt
    ensures Stands(n, Node(red, k, L, R), {n} + ReprOf(l) + ReprOf(rt))
  {
    n := new RbTree.Make(k, red, l, rt);
    Assemble(n);
  }

  /** The version 4(2(-, 3), 6) under a head (keys hashed to themselves):
      `s` is the node `2`, whose only son is the red leaf `3`. */
  method Sample() returns (v: RbTree<int>, s: RbTree<int>)
    ensures fresh(v) && fresh(s) && v.IsHead()
    ensures v.Root() == Node(false, 4, Node(false, 2, Nil, Node(true, 3, Nil, Nil)), Node(false, 6, Nil, Nil))
    ensures v.left != null && v.left.left == s && s.left == null && s.right != null
    ensures s.Valid() && s.Model() == Node(false, 2, Nil, Node(true, 3, Nil, Nil))
    ensures s.key == Some(2) && s.right.key == Some(3)
  {
    var g := new RbTree.Leaf(3);
    ghost var G := Node(true, 3, Nil, Nil);
    s := Joined(2, false, null, Nil, g, G);
    ghost var S := Node(false, 2, Nil, G);
    var e := Joined(6, false, null, Nil, null, Nil);
    ghost var E := Node(false, 6, Nil, Nil);
    var r := Joined(4, false, s, S, e, E);
    v := Held(r);
  }

  /** A new head whose root is `r`. */
  method Held<T>(r: RbTree<T>) returns (v: RbTree<T>)
    requires r.Valid()
    ensures fresh(v) && v.IsHead() && v.left == r && v.Root() == r.Model()
  {
    v := new RbTree.Empty();
    v.left := r;
    v.Repr := {v} + r.Repr;
    Unchanged(r);
    Headed(v);
  }

  /** Lines 451-462 as written: removing `2` from the version 4(2(-, 3), 6)
      held by the head `v` copies the root and then rewrites the shared node
      `2` in place, so afterwards node `2` of `v`, which held `2`, holds `3`
      and has no son. */
  method SharedSonChanged(v: RbTree<int>, s: RbTree<int>)
    requires v.IsHead() && v.left != null && v.left.left == s
    requires v.Root() == Node(false, 4, Node(false, 2, Nil, Node(true, 3, Nil, Nil)), Node(false, 6, Nil, Nil))
    modifies s
    ensures old(s.key) == Some(2) && v.left != null && v.left.left == s
    ensures s.key == Some(3) && s.left == null && s.right == null
  {
    Parts(v.left);
    Parts(s);
    var c := new RbTree.Copy(v.left);
    c.RemoveOnlySonAsWritten(s);
  }

  /** The corrected step on the same removal: the copy of the root holds
      4(3, 6) and the sample version still stands for its old value. */
  method SharedSonKept() returns (v: RbTree<int>, c: RbTree<int>)
    ensures v.IsHead() && v.Root() == Node(false, 4, Node(false, 2, Nil, Node(true, 3, Nil, Nil)), Node(false, 6, Nil, Nil))
    ensures c.Valid() && c.Model() == Node(false, 4, Node(false, 3, Nil, Nil), Node(false, 6, Nil, Nil))
  {
    var s;
    v, s := Sample();
    c := Removed(v, s);
  }

  /** The corrected step on a copy of the root of `v` whose left son `s` has
      one son; `v` itself is left as it was. */
  method Removed<T>(v: RbTree<T>, s: RbTree<T>) returns (c: RbTree<T>)
    requires v.IsHead() && v.left != null && v.left.left == s && (s.left == null) != (s.right == null)
    ensures fresh(c) && c.Valid()
    ensures c.Model() == Deletion.Reattach(old(v.Root()), true, Deletion.RemoveSon(old(s.Model()))).tree
  {
    c := RootCopy(v);
    var wasLeft := c.RemoveOnlySon(s);
  }

  /** `new RbTree<>(head.left)`: a valid copy of the root of a non-empty
      version, standing for the same value. */
  method RootCopy<T>(v: RbTree<T>) returns (c: RbTree<T>)
    requires v.IsHead() && v.left != null
    ensures fresh(c) && c.Valid() && c.Model() == v.Root() && c.left == v.left.left && c.right == v.left.right
  {
    Parts(v.left);
    c := new RbTree.Copy(v.left);
    Assemble(c);
  }

  /** The footprint of a possibly null child. */
  ghost function ReprOf<T>(n: RbTree?<T>): set<object>
    reads n
  {
    if n == null then {} else n.Repr
  }
}
