/** Deletion: `remove`, `removeOnSon`, `removeRightmost`, `removeSon`,
    `removeFix` and its six cases, on values.

    Every step of the source returns, for the slot it worked on, the new
    subtree and the `Fixup.required` flag, which says that the black height of
    that slot dropped by one.  `Fixup` below is that pair.
 */
module Deletion {
  import opened Trees
  import opened Lookup
  import opened Insertion

  /** The new subtree of a slot and whether its black height dropped by one. */
  datatype Fixup<T> = Fixup(tree: Tree<T>, required: bool)

  /** `getRedSon` (lines 683-689) returns a son rather than null.  Its
      `isRed` is `Trees.IsRed`. */
  predicate HasRedSon<T>(t: Tree<T>) {
    t.Node? && (IsRed(t.left) || IsRed(t.right))
  }

  /** The son `getRedSon` returns when `HasRedSon` holds: a red son, the
      left one when both are red. */
  function RedSon<T>(t: Tree<T>): (r: Tree<T>)
    requires HasRedSon(t)
    ensures IsRed(r) && (r == t.left || r == t.right)
    ensures IsRed(t.left) ==> r == t.left
  {
    if IsRed(t.left) then t.left else t.right
  }

  /** The nephew `c` of lines 491-493, inspected in cases 3 and 4: the son
      of the brother on the deleted side, or the other son when that one is
      null. */
  function Nephew<T>(b: Tree<T>, remLeft: bool): (r: Tree<T>)
    requires b.Node?
    ensures r == b.left || r == b.right
    ensures r == Nil <==> b.left == Nil && b.right == Nil
    ensures Child(b, remLeft) != Nil ==> r == Child(b, remLeft)
  {
    if Child(b, remLeft) != Nil then Child(b, remLeft) else Child(b, !remLeft)
  }

  // ---------------------------------------------------------------------
  // The six cases of `removeFix`.  `x` is the node whose `remLeft` slot holds
  // the subtree `D` that lost a black node; `b` is the brother of `D`.

  /** Case 1: red parent, red nephew `c`.  A nephew on the near side is
      rotated above the brother, otherwise brother and nephew swap colours;
      then the parent is rotated down and painted black. */
  function RemoveCase1<T>(x: Tree<T>, remLeft: bool): (r: Tree<T>)
    requires x.Node? && HasRedSon(Child(x, !remLeft))
    ensures Keys(r) == Keys(x)
  {
    var b := Child(x, !remLeft);
    var c := RedSon(b);
    if remLeft then
      var b1 := if IsRed(b.left) then RotateRight(b) else b.(red := true, right := Paint(c, false));
      assert Keys(b1) == Keys(b);
      var t := RotateLeft(x.(right := b1));
      t.(left := Paint(t.left, false))
    else
      var b1 := if !IsRed(b.left) then RotateLeft(b) else b.(red := true, left := Paint(c, false));
      assert Keys(b1) == Keys(b);
      var t := RotateRight(x.(left := b1));
      t.(right := Paint(t.right, false))
  }

  /** Case 2: red parent, no red nephew: swap the colours of parent and brother. */
  function RemoveCase2<T>(x: Tree<T>, remLeft: bool): (r: Tree<T>)
    requires x.Node? && Child(x, !remLeft).Node?
    ensures Keys(r) == Keys(x)
  {
    WithChild(Paint(x, false), !remLeft, Paint(Child(x, !remLeft), true))
  }

  /** Case 3: black parent, red brother, a nephew `c` with a red son `d`.
      When the near son of the brother is null and `d` is the right son of
      `c`, lines 563-566 rotate `c` with `this` as its parent instead of the
      brother, so the brother drops out of the result; a valid tree never
      reaches that branch, because a red brother has either two sons or none. */
  function RemoveCase3<T>(x: Tree<T>, remLeft: bool): (r: Tree<T>)
    requires x.Node? && Child(x, !remLeft).Node?
    requires HasRedSon(Nephew(Child(x, !remLeft), remLeft))
    ensures Child(Child(x, !remLeft), remLeft) != Nil ==> Keys(r) == Keys(x)
  {
    var b := Child(x, !remLeft);
    var c := Nephew(b, remLeft);
    var d := RedSon(c);
    if remLeft then
      if b.left != Nil then
        var c1 := if IsRed(c.left) then
            var e := RotateRight(c); e.(red := false, right := Paint(e.right, false))
          else c.(red := false, right := Paint(d, false));
        assert Keys(c1) == Keys(c);
        var b1 := RotateRight(b.(red := true, left := c1));
        assert Keys(b1) == Keys(b);
        RotateLeft(x.(right := b1))
      else if IsRed(c.left) then
        var c1 := c.(red := true, left := Paint(d, false));
        assert Keys(c1) == Keys(c);
        RotateLeft(x.(right := b.(red := false, right := c1)))
      else
        var e := RotateLeft(c);
        RotateLeft(x.(right := e.(red := true, left := Paint(e.left, false))))
    else
      if b.right != Nil then
        var c1 := if !IsRed(c.left) then
            var e := RotateLeft(c); e.(red := false, left := Paint(e.left, false))
          else c.(red := false, left := Paint(d, false));
        assert Keys(c1) == Keys(c);
        var b1 := RotateLeft(b.(red := true, right := c1));
        assert Keys(b1) == Keys(b);
        RotateRight(x.(left := b1))
      else
        var c1 := if IsRed(c.left) then
            var e := RotateRight(c); e.(red := true, right := Paint(e.right, false))
          else c.(red := true, right := Paint(d, false));
        assert Keys(c1) == Keys(c);
        RotateRight(x.(left := b.(red := false, left := c1)))
  }

  /** Case 4: black parent, red brother, a nephew `c` without a red son. */
  function RemoveCase4<T>(x: Tree<T>, remLeft: bool): (r: Tree<T>)
    requires x.Node? && Child(x, !remLeft).Node? && Nephew(Child(x, !remLeft), remLeft).Node?
    ensures Keys(r) == Keys(x)
  {
    var b := Child(x, !remLeft);
    var c := Nephew(b, remLeft);
    if remLeft then
      var b1 := if b.left == Nil then RotateLeft(b) else b.(red := false, left := Paint(c, true));
      assert Keys(b1) == Keys(b);
      RotateLeft(x.(right := b1))
    else
      var b1 := if b.right == Nil then RotateRight(b) else b.(red := false, right := Paint(c, true));
      assert Keys(b1) == Keys(b);
      RotateRight(x.(left := b1))
  }

  /** Case 5: black parent, black brother, a red nephew `c`, painted black. */
  function RemoveCase5<T>(x: Tree<T>, remLeft: bool): (r: Tree<T>)
    requires x.Node? && HasRedSon(Child(x, !remLeft))
    ensures Keys(r) == Keys(x)
  {
    var b := Child(x, !remLeft);
    var c := RedSon(b);
    if remLeft then
      var b1 := if IsRed(b.left) then RotateRight(b.(left := Paint(c, false)))
        else b.(right := Paint(c, false));
      assert Keys(b1) == Keys(b);
      RotateLeft(x.(right := b1))
    else
      var b1 := if !IsRed(b.left) then RotateLeft(b.(right := Paint(c, false)))
        else b.(left := Paint(c, false));
      assert Keys(b1) == Keys(b);
      RotateRight(x.(left := b1))
  }

  /** Case 6: black parent, black brother, no red nephew: paint the brother red. */
  function RemoveCase6<T>(x: Tree<T>, remLeft: bool): (r: Tree<T>)
    requires x.Node? && Child(x, !remLeft).Node?
    ensures Keys(r) == Keys(x)
  {
    WithChild(x, !remLeft, Paint(Child(x, !remLeft), true))
  }

  /** `removeFix`: the `remLeft` slot of `x` lost one black node. */
  function RemoveFix<T>(x: Tree<T>, remLeft: bool): (r: Fixup<T>)
    requires x.Node?
    ensures r.required <==> var b := Child(x, !remLeft); b.Node? && !x.red && !b.red && !HasRedSon(b)
    ensures Child(x, !remLeft) == Nil ==> r == Fixup(x, false)
  {
    var b := Child(x, !remLeft);
    if b == Nil then Fixup(x, false)
    else if x.red then
      if HasRedSon(b) then Fixup(RemoveCase1(x, remLeft), false)
      else Fixup(RemoveCase2(x, remLeft), false)
    else if b.red then
      var c := Nephew(b, remLeft);
      if c == Nil then Fixup(x, false)
      else if HasRedSon(c) then Fixup(RemoveCase3(x, remLeft), false)
      else Fixup(RemoveCase4(x, remLeft), false)
    else if HasRedSon(b) then Fixup(RemoveCase5(x, remLeft), false)
    else Fixup(RemoveCase6(x, remLeft), true)
  }

  // ---------------------------------------------------------------------
  // Correctness of `removeFix`

  /** The situation `removeFix` is called in: both sons of `x` are valid, the
      `remLeft` one is one black node short of its brother, and a red `x` has a
      black brother.  The short son itself may have a red root. */
  predicate Deficient<T>(x: Tree<T>, remLeft: bool) {
    x.Node? &&
    RB(Child(x, remLeft)) && RB(Child(x, !remLeft)) &&
    BH(Child(x, remLeft)) + 1 == BH(Child(x, !remLeft)) &&
    (x.red ==> !IsRed(Child(x, !remLeft)))
  }

  /** What a case achieves: a valid subtree of the black height `x` should
      have had, red only where `x` was red. */
  predicate Repaired<T>(x: Tree<T>, remLeft: bool, t: Tree<T>)
    requires x.Node?
  {
    RB(t) && BH(t) == BH(Child(x, !remLeft)) + (if x.red then 0 else 1) &&
    (IsRed(t) ==> x.red)
  }

  lemma Case1Valid<T>(x: Tree<T>, remLeft: bool)
    requires Deficient(x, remLeft) && x.red && HasRedSon(Child(x, !remLeft))
    ensures Repaired(x, remLeft, RemoveCase1(x, remLeft))
  {
    var b := Child(x, !remLeft);
    var D := Child(x, remLeft);
    var bl, br := b.left, b.right;
    assert !b.red && RB(bl) && RB(br) && BH(bl) == BH(br);
    assert BH(b) == BH(bl) + 1;
    var c := RedSon(b);
    assert c.red && RB(c.left) && RB(c.right) && !IsRed(c.left) && !IsRed(c.right);
    assert BH(c.left) == BH(c.right) == BH(c) == BH(D);
    var t := RemoveCase1(x, remLeft);
    if remLeft {
      if IsRed(bl) {
        var u, v := Node(false, x.key, D, c.left), Node(b.red, b.key, c.right, br);
        assert t == Node(true, c.key, u, v);
        assert RB(u) && RB(v) && BH(u) == BH(v);
      } else {
        var u, v := Node(false, x.key, D, bl), Node(false, c.key, c.left, c.right);
        assert t == Node(true, b.key, u, v);
        assert RB(u) && RB(v) && BH(u) == BH(v);
      }
    } else {
      if IsRed(bl) {
        var u, v := Node(false, c.key, c.left, c.right), Node(false, x.key, br, D);
        assert t == Node(true, b.key, u, v);
        assert RB(u) && RB(v) && BH(u) == BH(v);
      } else {
        var u, v := Node(b.red, b.key, bl, c.left), Node(false, x.key, c.right, D);
        assert t == Node(true, c.key, u, v);
        assert RB(u) && RB(v) && BH(u) == BH(v);
      }
    }
  }

  lemma Case2Valid<T>(x: Tree<T>, remLeft: bool)
    requires Deficient(x, remLeft) && x.red && !HasRedSon(Child(x, !remLeft))
    ensures Child(x, !remLeft).Node? && Repaired(x, remLeft, RemoveCase2(x, remLeft))
  {
    var b := Child(x, !remLeft);
    var D := Child(x, remLeft);
    assert b.Node? && !b.red;
    assert RB(b.left) && RB(b.right) && BH(b.left) == BH(b.right) == BH(D);
    var b1 := Paint(b, true);
    assert RB(b1) && BH(b1) == BH(D);
  }

  lemma Case3Valid<T>(x: Tree<T>, remLeft: bool)
    requires Deficient(x, remLeft) && !x.red && IsRed(Child(x, !remLeft))
    requires HasRedSon(Nephew(Child(x, !remLeft), remLeft))
    ensures Child(Child(x, !remLeft), remLeft) != Nil
    ensures Repaired(x, remLeft, RemoveCase3(x, remLeft))
  {
    var b := Child(x, !remLeft);
    var D := Child(x, remLeft);
    var bl, br := b.left, b.right;
    assert RB(bl) && RB(br) && !IsRed(bl) && !IsRed(br);
    assert BH(bl) == BH(br) == BH(b) == BH(D) + 1;
    assert bl.Node? && br.Node?;
    var c := Nephew(b, remLeft);
    assert c == Child(b, remLeft) && !c.red;
    assert RB(c.left) && RB(c.right) && BH(c.left) == BH(c.right) == BH(D);
    var d := RedSon(c);
    assert d.red && RB(d.left) && RB(d.right) && !IsRed(d.left) && !IsRed(d.right);
    assert BH(d.left) == BH(d.right) == BH(D);
    var t := RemoveCase3(x, remLeft);
    if remLeft {
      if IsRed(c.left) {
        var w := Node(false, c.key, d.right, c.right);
        assert RB(w) && BH(w) == BH(br);
        var u, v := Node(false, x.key, D, d.left), Node(true, b.key, w, br);
        assert t == Node(false, d.key, u, v);
        assert RB(u) && RB(v) && BH(u) == BH(v);
      } else {
        var w := Node(false, d.key, d.left, d.right);
        assert RB(w) && BH(w) == BH(br);
        var u, v := Node(false, x.key, D, c.left), Node(true, b.key, w, br);
        assert t == Node(false, c.key, u, v);
        assert RB(u) && RB(v) && BH(u) == BH(v);
      }
    } else {
      if IsRed(c.left) {
        var w := Node(false, d.key, d.left, d.right);
        assert RB(w) && BH(w) == BH(bl);
        var u, v := Node(true, b.key, bl, w), Node(false, x.key, c.right, D);
        assert t == Node(false, c.key, u, v);
        assert RB(u) && RB(v) && BH(u) == BH(v);
      } else {
        var w := Node(false, c.key, c.left, d.left);
        assert RB(w) && BH(w) == BH(bl);
        var u, v := Node(true, b.key, bl, w), Node(false, x.key, d.right, D);
        assert t == Node(false, d.key, u, v);
        assert RB(u) && RB(v) && BH(u) == BH(v);
      }
    }
  }

  lemma Case4Valid<T>(x: Tree<T>, remLeft: bool)
    requires Deficient(x, remLeft) && !x.red && IsRed(Child(x, !remLeft))
    requires Nephew(Child(x, !remLeft), remLeft).Node? && !HasRedSon(Nephew(Child(x, !remLeft), remLeft))
    ensures Repaired(x, remLeft, RemoveCase4(x, remLeft))
  {
    var b := Child(x, !remLeft);
    var D := Child(x, remLeft);
    var bl, br := b.left, b.right;
    assert RB(bl) && RB(br) && !IsRed(bl) && !IsRed(br);
    assert BH(bl) == BH(br) == BH(b) == BH(D) + 1;
    assert bl.Node? && br.Node?;
    var c := Nephew(b, remLeft);
    assert c == Child(b, remLeft) && !c.red;
    assert RB(c.left) && RB(c.right) && BH(c.left) == BH(c.right) == BH(D);
    var c1 := Paint(c, true);
    assert RB(c1) && BH(c1) == BH(D);
    var t := RemoveCase4(x, remLeft);
    if remLeft {
      var u := Node(false, x.key, D, c1);
      assert t == Node(false, b.key, u, br);
      assert RB(u) && BH(u) == BH(br);
    } else {
      var v := Node(false, x.key, c1, D);
      assert t == Node(false, b.key, bl, v);
      assert RB(v) && BH(v) == BH(bl);
    }
  }

  lemma Case5Valid<T>(x: Tree<T>, remLeft: bool)
    requires Deficient(x, remLeft) && !x.red && HasRedSon(Child(x, !remLeft)) && !Child(x, !remLeft).red
    ensures Repaired(x, remLeft, RemoveCase5(x, remLeft))
  {
    var b := Child(x, !remLeft);
    var D := Child(x, remLeft);
    var bl, br := b.left, b.right;
    assert RB(bl) && RB(br) && BH(bl) == BH(br) == BH(D);
    var c := RedSon(b);
    assert c.red && RB(c.left) && RB(c.right) && !IsRed(c.left) && !IsRed(c.right);
    assert BH(c.left) == BH(c.right) == BH(D);
    var c1 := Paint(c, false);
    assert RB(c1) && BH(c1) == BH(D) + 1;
    var t := RemoveCase5(x, remLeft);
    if remLeft {
      if IsRed(bl) {
        var u, v := Node(false, x.key, D, c.left), Node(false, b.key, c.right, br);
        assert t == Node(false, c.key, u, v);
        assert RB(u) && RB(v) && BH(u) == BH(v);
      } else {
        var u := Node(false, x.key, D, bl);
        assert t == Node(false, b.key, u, c1);
        assert RB(u) && BH(u) == BH(c1);
      }
    } else {
      if IsRed(bl) {
        var v := Node(false, x.key, br, D);
        assert t == Node(false, b.key, c1, v);
        assert RB(v) && BH(v) == BH(c1);
      } else {
        var u, v := Node(false, b.key, bl, c.left), Node(false, x.key, c.right, D);
        assert t == Node(false, c.key, u, v);
        assert RB(u) && RB(v) && BH(u) == BH(v);
      }
    }
  }

  lemma Case6Valid<T>(x: Tree<T>, remLeft: bool)
    requires Deficient(x, remLeft) && !x.red && !IsRed(Child(x, !remLeft))
    requires !HasRedSon(Child(x, !remLeft))
    ensures Child(x, !remLeft).Node?
    ensures var t := RemoveCase6(x, remLeft);
      RB(t) && !IsRed(t) && BH(t) == BH(Child(x, !remLeft)) && Keys(t) == Keys(x)
  {
    var b := Child(x, !remLeft);
    var D := Child(x, remLeft);
    assert b.Node?;
    assert RB(b.left) && RB(b.right) && BH(b.left) == BH(b.right) == BH(D);
    var b1 := Paint(b, true);
    assert RB(b1) && BH(b1) == BH(D);
  }

  /** `removeFix` repairs a slot that is one black node short: the result is a
      valid subtree with the keys of `x` in the same order; either it has the
      black height `x` should have had, or (case 6 only, which needs a black
      `x`) it is one short and the flag asks the caller to go on fixing. */
  lemma RemoveFixValid<T>(x: Tree<T>, remLeft: bool)
    requires Deficient(x, remLeft)
    ensures var f := RemoveFix(x, remLeft);
      f.tree.Node? && RB(f.tree) && Keys(f.tree) == Keys(x) &&
      BH(f.tree) + (if f.required then 1 else 0) ==
        BH(Child(x, !remLeft)) + (if x.red then 0 else 1) &&
      (IsRed(f.tree) ==> x.red) && (f.required ==> !x.red && !IsRed(f.tree))
  {
    var b := Child(x, !remLeft);
    assert b.Node?;
    if x.red {
      if HasRedSon(b) {
        Case1Valid(x, remLeft);
      } else {
        Case2Valid(x, remLeft);
      }
    } else if b.red {
      assert RB(Child(b, remLeft)) && BH(Child(b, remLeft)) == BH(b) >= 1;
      var c := Nephew(b, remLeft);
      assert c.Node?;
      if HasRedSon(c) {
        Case3Valid(x, remLeft);
      } else {
        Case4Valid(x, remLeft);
      }
    } else if HasRedSon(b) {
      Case5Valid(x, remLeft);
    } else {
      Case6Valid(x, remLeft);
    }
  }

  // ---------------------------------------------------------------------
  // Removing a node

  /** The parent's side of every step (lines 358-365, 392-393, 425-426): put
      the new subtree `f.tree` into the slot and, when that slot came out one
      black node short, run `removeFix` on the parent. */
  function Reattach<T>(p: Tree<T>, side: bool, f: Fixup<T>): (r: Fixup<T>)
    requires p.Node?
    ensures r.required ==> f.required
    ensures !f.required ==> r == Fixup(WithChild(p, side, f.tree), false)
  {
    var p1 := WithChild(p, side, f.tree);
    if f.required then RemoveFix(p1, side) else Fixup(p1, false)
  }

  /** `removeSon` as written in lines 433-466, seen from the parent `p` whose
      `sonLeft` son is the node to remove (it has at most one son).  A red
      leaf is removed by `left = right = null`, which also drops its brother. */
  function RemoveSonAsWritten<T>(p: Tree<T>, sonLeft: bool): (r: Fixup<T>)
    requires p.Node? && Child(p, sonLeft).Node?
    requires Child(p, sonLeft).left == Nil || Child(p, sonLeft).right == Nil
    ensures Child(p, sonLeft).left != Nil || Child(p, sonLeft).right != Nil ==> !r.required
  {
    var son := Child(p, sonLeft);
    if son.left == Nil && son.right == Nil then
      if son.red then Fixup(p.(left := Nil, right := Nil), false)
      else RemoveFix(WithChild(p, sonLeft, Nil), sonLeft)
    else
      var g := if son.left == Nil then son.right else son.left;
      Fixup(WithChild(p, sonLeft, Node(son.red, g.key, Nil, Nil)), false)
  }

  /** `removeSon` with line 442 corrected to `swapSon(son, null)`, seen from
      the son itself: the new subtree for its slot.  A black leaf leaves the
      slot one black node short; a node with one son takes over that son's key. */
  function RemoveSon<T>(s: Tree<T>): (r: Fixup<T>)
    requires s.Node? && (s.left == Nil || s.right == Nil)
    ensures r.required ==> r.tree == Nil
  {
    if s.left == Nil && s.right == Nil then Fixup(Nil, !s.red)
    else
      var g := if s.left == Nil then s.right else s.left;
      Fixup(Node(s.red, g.key, Nil, Nil), false)
  }

  /** The last key in order of a node with a right son is the last key of
      that son, and its own key when that son has no right son. */
  lemma LastKey<T>(y: Tree<T>)
    requires y.Node? && y.right.Node?
    ensures var ks, rs := Keys(y), Keys(y.right);
      |rs| > 0 && |ks| > 0 && ks[|ks| - 1] == rs[|rs| - 1]
    ensures y.right.right == Nil ==> Keys(y.right)[|Keys(y.right)| - 1] == y.right.key
  {
    assert Keys(y) == Keys(y.left) + [y.key] + Keys(y.right);
    assert Keys(y.right) == Keys(y.right.left) + [y.right.key] + Keys(y.right.right);
  }

  /** `removeRightmost` (lines 413-428) on the copy `y` of a node with a right
      son, with the corrected `RemoveSon` at line 420: removes the last key of
      `y` in order and returns it with the new subtree for the slot of `y`. */
  function RemoveRightmost<T>(y: Tree<T>): (r: (Fixup<T>, T))
    requires y.Node? && y.right.Node?
    ensures |Keys(y)| > 0 && Keys(y)[|Keys(y)| - 1] == r.1
    decreases y
  {
    LastKey(y);
    if y.right.right == Nil then
      (Reattach(y, false, RemoveSon(y.right)), y.right.key)
    else
      var (f, k) := RemoveRightmost(y.right);
      (Reattach(y, false, f), k)
  }

  /** The node holding the key to remove was reached (lines 368-403); a node
      with at most one son is removed by the corrected `RemoveSon`. */
  function RemoveMatch<T>(s: Tree<T>): (r: Fixup<T>)
    requires s.Node?
    ensures s.left == Nil && s.right == Nil ==> r == Fixup(Nil, !s.red)
  {
    if s.left != Nil && s.right != Nil then
      var l := s.left;
      if l.right == Nil then
        // the left son takes the place of `s`
        RemoveFix(Node(s.red, l.key, l.left, s.right), true)
      else
        // the rightmost key of the left subtree takes the place of the key of `s`
        var (f, k) := RemoveRightmost(l);
        Reattach(Node(s.red, k, l, s.right), true, f)
    else
      RemoveSon(s)
  }

  /** `removeOnSon` (lines 339-404) on the son `s`, with the corrected
      `RemoveSon`: descend towards `x` as lines 347-351 do and rebuild the
      path.  As in the source, a missing son on the way down
      (`grandSon == null`) is taken for a match, so the last node reached is
      removed even when `x` is not in the tree. */
  function RemoveOnSon<T(==)>(h: T -> int, s: Tree<T>, x: T): (r: Fixup<T>)
    requires s.Node?
    ensures s.left == Nil && s.right == Nil ==> r == Fixup(Nil, !s.red)
    decreases s
  {
    var goLeft := h(x) < h(s.key);
    var g := if goLeft then s.left else if x != s.key then s.right else Nil;
    if g != Nil then Reattach(s, goLeft, RemoveOnSon(h, g, x))
    else RemoveMatch(s)
  }

  /** `remove` (lines 326-334) corrected: the descent is guarded by `findNode`
      and removes nodes with the corrected `RemoveSon`.  A null key is an
      error, and a key the lookup does not find leaves the version unchanged,
      as the documentation of `remove` promises. */
  function Remove<T(==)>(h: T -> int, root: Tree<T>, key: Option<T>): (r: Result<Tree<T>>)
    ensures key.None? <==> r.NullKey?
    ensures key.Some? && (root == Nil || FindNode(h, root, key.value).None?) ==> r == Ok(root)
  {
    match key
    case None => NullKey
    case Some(x) =>
      if root == Nil || FindNode(h, root, x).None? then Ok(root)
      else Ok(RemoveOnSon(h, root, x).tree)
  }

  // ---------------------------------------------------------------------
  // Removal as written

  /** `removeRightmost` as written: the last node is removed by `removeSon`
      as written on the copy `y` of its parent (line 420), so a red last node
      takes its brother with it. */
  function RemoveRightmostAsWritten<T>(y: Tree<T>): (r: (Fixup<T>, T))
    requires y.Node? && y.right.Node?
    ensures |Keys(y)| > 0 && Keys(y)[|Keys(y)| - 1] == r.1
    decreases y
  {
    LastKey(y);
    if y.right.right == Nil then
      (RemoveSonAsWritten(y, false), y.right.key)
    else
      var (f, k) := RemoveRightmostAsWritten(y.right);
      (Reattach(y, false, f), k)
  }

  /** Lines 376-397 as written, on a matched node `s` with two sons.  The
      slot comes out short only under a black `s`: a red one absorbs the
      missing black node.  `BothAsWrittenValid` and `BothAgrees` say what
      else this step keeps. */
  function RemoveBothAsWritten<T>(s: Tree<T>): (r: Fixup<T>)
    requires s.Node? && s.left.Node? && s.right.Node?
    ensures r.required ==> !s.red
  {
    var l := s.left;
    if l.right == Nil then
      RemoveFix(Node(s.red, l.key, l.left, s.right), true)
    else
      var (f, k) := RemoveRightmostAsWritten(l);
      Reattach(Node(s.red, k, l, s.right), true, f)
  }

  /** `removeOnSon` as written (lines 339-404), called on `p` for its `side`
      son: the new subtree for the slot of `p`.  A matched node with at most
      one son is removed by `removeSon` as written on the copy of `p`
      (line 401). */
  function RemoveOnSonAsWritten<T(==)>(h: T -> int, p: Tree<T>, side: bool, x: T): (r: Fixup<T>)
    requires p.Node? && Child(p, side).Node?
    ensures var s := Child(p, side);
      s.left == Nil && s.right == Nil && s.red ==> r == Fixup(p.(left := Nil, right := Nil), false)
    ensures var s := Child(p, side);
      s.left == Nil && s.right == Nil && !s.red ==> r == RemoveFix(WithChild(p, side, Nil), side)
    decreases p
  {
    var s := if side then p.left else p.right;
    var goLeft := h(x) < h(s.key);
    var g := if goLeft then s.left else if x != s.key then s.right else Nil;
    if g != Nil then Reattach(p, side, RemoveOnSonAsWritten(h, s, goLeft, x))
    else if s.left != Nil && s.right != Nil then Reattach(p, side, RemoveBothAsWritten(s))
    else RemoveSonAsWritten(p, side)
  }

  /** `remove` as written (lines 326-334): a null key is an error and the
      empty tree stays empty; otherwise the descent starts at the head with no
      lookup first.  The head's right slot is always null, so at the head
      line 442 and the closing `removeFix` (which returns at once without a
      brother) change nothing. */
  function RemoveAsWritten<T(==)>(h: T -> int, root: Tree<T>, key: Option<T>): (r: Result<Tree<T>>)
    ensures key.None? <==> r.NullKey?
    ensures key.Some? && root == Nil ==> r == Ok(Nil)
  {
    match key
    case None => NullKey
    case Some(x) =>
      if root == Nil then Ok(Nil)
      else
        var goLeft := h(x) < h(root.key);
        var g := if goLeft then root.left else if x != root.key then root.right else Nil;
        if g != Nil then Ok(RemoveOnSonAsWritten(h, root, goLeft, x).tree)
        else if root.left != Nil && root.right != Nil then Ok(RemoveBothAsWritten(root).tree)
        else Ok(RemoveSon(root).tree)
  }

  // ---------------------------------------------------------------------
  // Correctness of removal
  //
  // The lemmas from `RemoveRightmostValid` to `InsertThenRemove` are about
  // the corrected chain (`RemoveSon` for line 442, and `Remove` guarded by
  // the lookup); the chain as written is covered further down.

  /** `f` is a valid replacement for the subtree `s`: its black height is that
      of `s`, or one less when the flag is set, and it is red only where `s`
      was red. */
  predicate Shortened<T>(s: Tree<T>, f: Fixup<T>) {
    RB(f.tree) && BH(f.tree) + (if f.required then 1 else 0) == BH(s) &&
    (IsRed(f.tree) ==> IsRed(s))
  }

  /** Removing a node with at most one son removes exactly its own key. */
  lemma RemoveSonValid<T>(s: Tree<T>)
    requires s.Node? && (s.left == Nil || s.right == Nil) && RB(s)
    ensures Shortened(s, RemoveSon(s))
    ensures Keys(RemoveSon(s).tree) == Keys(s.left) + Keys(s.right)
  {
    if s.left != Nil || s.right != Nil {
      var g := if s.left == Nil then s.right else s.left;
      assert BH(g) == 0 && RB(g);
      assert g.red;
      assert g.left == Nil && g.right == Nil;
      assert !s.red;
    }
  }

  /** What is left after removing a node with at most one son is null or a
      single node, and it holds every key but the removed node's. */
  lemma RemoveSonElems<T>(s: Tree<T>)
    requires s.Node? && (s.left == Nil || s.right == Nil) && RB(s)
    ensures RemoveSon(s).tree.Node? ==> RemoveSon(s).tree.left == Nil && RemoveSon(s).tree.right == Nil
    ensures Elems(RemoveSon(s).tree) + multiset{s.key} == Elems(s)
  {
    if s.left != Nil || s.right != Nil {
      var g := if s.left == Nil then s.right else s.left;
      assert BH(g) == 0 && RB(g) && g.red;
      assert g.left == Nil && g.right == Nil;
      assert Elems(g) == multiset{g.key};
    }
  }

  /** The parent's step keeps the invariants one level up. */
  lemma ReattachValid<T>(p: Tree<T>, side: bool, f: Fixup<T>)
    requires p.Node? && RB(p) && Shortened(Child(p, side), f)
    ensures Shortened(p, Reattach(p, side, f))
    ensures Keys(Reattach(p, side, f).tree) == Keys(WithChild(p, side, f.tree))
  {
    var p1 := WithChild(p, side, f.tree);
    assert RB(Child(p, !side)) && BH(Child(p, side)) == BH(Child(p, !side));
    if f.required {
      assert Deficient(p1, side);
      RemoveFixValid(p1, side);
    } else {
      assert RB(p1);
    }
  }

  /** The corrected `RemoveRightmost` removes the last key in order and
      returns it. */
  lemma {:induction false} RemoveRightmostValid<T>(y: Tree<T>)
    requires y.Node? && y.right.Node? && RB(y)
    ensures var (f, k) := RemoveRightmost(y);
      Shortened(y, f) && Keys(f.tree) + [k] == Keys(y)
    decreases y
  {
    var s := y.right;
    if s.right == Nil {
      RemoveSonValid(s);
      ReattachValid(y, false, RemoveSon(s));
    } else {
      RemoveRightmostValid(s);
      var (f, k) := RemoveRightmost(s);
      ReattachValid(y, false, f);
    }
  }

  /** A child whose keys are among those of the old child keeps the order. */
  lemma SortedWithFewer<T>(h: T -> int, p: Tree<T>, side: bool, c: Tree<T>)
    requires p.Node? && Sorted(h, p) && Sorted(h, c)
    requires forall z :: z in Elems(c) ==> z in Elems(Child(p, side))
    ensures Sorted(h, WithChild(p, side, c))
  {
  }

  /** Lines 379-386: the left son has no right son and takes the place of
      `s`; the fix-up that follows is a no-op when that son was red. */
  lemma MatchLeftSonValid<T>(h: T -> int, s: Tree<T>)
    requires s.Node? && RB(s) && Sorted(h, s) && s.left.Node? && s.right.Node?
    requires s.left.right == Nil
    ensures var f := RemoveMatch(s);
      Shortened(s, f) && Sorted(h, f.tree) && Elems(f.tree) + multiset{s.key} == Elems(s)
  {
    var l := s.left;
    var x := Node(s.red, l.key, l.left, s.right);
    LiftLeftSon(h, s);
    assert RemoveMatch(s) == RemoveFix(x, true);
    if l.red {
      RedLeftSonFix(s);
    } else {
      BlackLeftSonFix(h, s);
    }
  }

  /** A black left son without a right son leaves the slot one black node short. */
  lemma BlackLeftSonFix<T>(h: T -> int, s: Tree<T>)
    requires s.Node? && RB(s) && s.left.Node? && s.right.Node? && s.left.right == Nil && !s.left.red
    requires Sorted(h, Node(s.red, s.left.key, s.left.left, s.right))
    ensures var x := Node(s.red, s.left.key, s.left.left, s.right);
      var f := RemoveFix(x, true);
      Shortened(s, f) && Sorted(h, f.tree) && Elems(f.tree) == Elems(x)
  {
    var x := Node(s.red, s.left.key, s.left.left, s.right);
    var f := RemoveFix(x, true);
    assert RB(s.left) && RB(s.right) && BH(s.left) == BH(s.right);
    assert RB(s.left.left) && BH(s.left.left) + 1 == BH(s.left);
    assert Deficient(x, true);
    RemoveFixValid(x, true);
    SortedSameKeys(h, x, f.tree);
    ElemsSameKeys(x, f.tree);
  }

  /** The left son without a right son, put in the place of `s`, keeps the
      order and all keys but that of `s`. */
  lemma LiftLeftSon<T>(h: T -> int, s: Tree<T>)
    requires s.Node? && Sorted(h, s) && s.left.Node? && s.left.right == Nil
    ensures var x := Node(s.red, s.left.key, s.left.left, s.right);
      Sorted(h, x) && Elems(x) + multiset{s.key} == Elems(s)
  {
    var l := s.left;
    assert Elems(s) == Elems(l) + multiset{s.key} + Elems(s.right);
    assert Elems(l) == Elems(l.left) + multiset{l.key};
    assert h(l.key) <= h(s.key);
  }

  /** A red left son without a right son is a red leaf, its brother is a red
      leaf too, and the fix-up after lifting it changes nothing. */
  lemma RedLeftSonFix<T>(s: Tree<T>)
    requires s.Node? && RB(s) && s.left.Node? && s.right.Node? && s.left.right == Nil && s.left.red
    ensures var x := Node(s.red, s.left.key, s.left.left, s.right);
      RemoveFix(x, true) == Fixup(x, false) && Shortened(s, Fixup(x, false))
  {
    var l, rt := s.left, s.right;
    assert RB(l) && RB(rt) && BH(l) == BH(rt);
    assert l.left == Nil && !s.red;
    assert rt.red && rt.left == Nil && rt.right == Nil;
  }

  /** Lines 387-397 with the corrected `RemoveRightmost`: the rightmost key
      of the left subtree replaces the key of `s`. */
  lemma MatchRightmostValid<T>(h: T -> int, s: Tree<T>)
    requires s.Node? && RB(s) && Sorted(h, s) && s.left.Node? && s.right.Node?
    requires s.left.right != Nil
    ensures var f := RemoveMatch(s);
      Shortened(s, f) && Sorted(h, f.tree) && Elems(f.tree) + multiset{s.key} == Elems(s)
  {
    var l := s.left;
    RemoveRightmostValid(l);
    var (g, k) := RemoveRightmost(l);
    var son := Node(s.red, k, l, s.right);
    var f := Reattach(son, true, g);
    assert RemoveMatch(s) == f;
    ReattachValid(son, true, g);
    var x := WithChild(son, true, g.tree);
    RightmostLift(h, s, g.tree, k);
    SortedSameKeys(h, x, f.tree);
    ElemsSameKeys(x, f.tree);
  }

  /** The left subtree without its last key, under that key, beside the
      right subtree: ordered, and all keys of `s` but its own. */
  lemma RightmostLift<T>(h: T -> int, s: Tree<T>, g: Tree<T>, k: T)
    requires s.Node? && Sorted(h, s) && Keys(g) + [k] == Keys(s.left)
    ensures var x := Node(s.red, k, g, s.right);
      Sorted(h, x) && Elems(x) + multiset{s.key} == Elems(s)
  {
    RightmostBound(h, s.left, g, k);
    assert k in Elems(s.left);
  }

  /** Without its last key, an ordered subtree stays ordered below that key. */
  lemma RightmostBound<T>(h: T -> int, l: Tree<T>, g: Tree<T>, k: T)
    requires Sorted(h, l) && Keys(g) + [k] == Keys(l)
    ensures Sorted(h, g) && Elems(l) == Elems(g) + multiset{k}
    ensures forall z :: z in Elems(g) ==> h(z) <= h(k)
  {
    ElemsKeys(l);
    ElemsKeys(g);
    SortedKeys(h, l);
    assert Keys(g) + [k] + [] == Keys(l);
    SortedSplit(h, Keys(g), k, []);
    SortedKeys(h, g);
  }

  /** Lines 400-401 with the corrected `RemoveSon`: a node with at most one
      son. */
  lemma MatchSonValid<T>(h: T -> int, s: Tree<T>)
    requires s.Node? && RB(s) && (s.left == Nil || s.right == Nil)
    ensures var f := RemoveSon(s);
      Shortened(s, f) && Sorted(h, f.tree) && Elems(f.tree) + multiset{s.key} == Elems(s)
  {
    RemoveSonValid(s);
    RemoveSonElems(s);
  }

  /** The corrected `RemoveMatch`: removing the node that was reached removes
      exactly its key and keeps the tree valid and ordered. */
  lemma RemoveMatchValid<T>(h: T -> int, s: Tree<T>)
    requires s.Node? && RB(s) && Sorted(h, s)
    ensures var f := RemoveMatch(s);
      Shortened(s, f) && Sorted(h, f.tree) && Elems(f.tree) + multiset{s.key} == Elems(s)
  {
    if s.left != Nil && s.right != Nil {
      if s.left.right == Nil {
        MatchLeftSonValid(h, s);
      } else {
        MatchRightmostValid(h, s);
      }
    } else {
      MatchSonValid(h, s);
    }
  }

  /** When `findNode` reaches `x` from `s`, the corrected `RemoveOnSon` takes
      the same path and removes exactly one occurrence of `x`, keeping the subtree a
      valid, ordered replacement for `s`. */
  lemma {:induction false} RemoveOnSonValid<T>(h: T -> int, s: Tree<T>, x: T)
    requires s.Node? && RB(s) && Sorted(h, s) && FindNode(h, s, x).Some?
    ensures var f := RemoveOnSon(h, s, x);
      Shortened(s, f) && Sorted(h, f.tree) && Elems(f.tree) + multiset{x} == Elems(s)
    decreases s
  {
    var goLeft := h(x) < h(s.key);
    var g := if goLeft then s.left else if x != s.key then s.right else Nil;
    if g != Nil {
      assert FindNode(h, g, x).Some?;
      assert RB(g) && Sorted(h, g);
      RemoveOnSonValid(h, g, x);
      DescendValid(h, s, goLeft, RemoveOnSon(h, g, x), x);
    } else {
      assert s.key == x;
      RemoveMatchValid(h, s);
    }
  }

  /** One level of the rebuilt path: the parent step keeps the invariants and
      the removal of one occurrence of `x`. */
  lemma DescendValid<T>(h: T -> int, s: Tree<T>, goLeft: bool, f: Fixup<T>, x: T)
    requires s.Node? && RB(s) && Sorted(h, s)
    requires Shortened(Child(s, goLeft), f) && Sorted(h, f.tree)
    requires Elems(f.tree) + multiset{x} == Elems(Child(s, goLeft))
    ensures var r := Reattach(s, goLeft, f);
      Shortened(s, r) && Sorted(h, r.tree) && Elems(r.tree) + multiset{x} == Elems(s)
  {
    ReattachValid(s, goLeft, f);
    RebuildOrdered(h, s, goLeft, f.tree, x, Reattach(s, goLeft, f).tree);
  }

  /** A subtree with the keys, in order, of `s` with one occurrence of `x`
      fewer below one son is ordered and holds the keys of `s` but `x`. */
  lemma RebuildOrdered<T>(h: T -> int, s: Tree<T>, side: bool, c: Tree<T>, x: T, t: Tree<T>)
    requires s.Node? && Sorted(h, s) && Sorted(h, c)
    requires Elems(c) + multiset{x} == Elems(Child(s, side))
    requires Keys(t) == Keys(WithChild(s, side, c))
    ensures Sorted(h, t) && Elems(t) + multiset{x} == Elems(s)
  {
    var p1 := WithChild(s, side, c);
    FewerIn(Elems(c), x, Elems(Child(s, side)));
    SortedWithFewer(h, s, side, c);
    SortedSameKeys(h, p1, t);
    RebuildElems(s, side, c, x);
    ElemsSameKeys(p1, t);
  }

  /** A multiset with one element added is a superset. */
  lemma FewerIn<T>(A: multiset<T>, x: T, B: multiset<T>)
    requires A + multiset{x} == B
    ensures forall z :: z in A ==> z in B
  {
  }

  lemma RebuildElems<T>(s: Tree<T>, side: bool, c: Tree<T>, x: T)
    requires s.Node? && Elems(c) + multiset{x} == Elems(Child(s, side))
    ensures Elems(WithChild(s, side, c)) + multiset{x} == Elems(s)
  {
    var p1 := WithChild(s, side, c);
    if side {
      assert Elems(p1) == Elems(c) + multiset{s.key} + Elems(s.right);
    } else {
      assert Elems(p1) == Elems(s.left) + multiset{s.key} + Elems(c);
    }
  }

  /** The corrected removal keeps a valid tree valid.  A key `findNode` finds loses one
      occurrence and the size drops by one; any other key leaves the version
      unchanged.  Without a hash collision on `x` the key is found exactly
      when it is stored, so one occurrence of it goes.  A version that held no
      key twice still holds none twice and `findNode` misses `x` afterwards;
      without a collision on `x` it no longer holds `x` at all. */
  lemma RemoveSpec<T>(h: T -> int, root: Tree<T>, x: T)
    requires IsRbTree(h, root)
    ensures Remove(h, root, Some(x)).Ok?
    ensures var t := Remove(h, root, Some(x)).value;
      IsRbTree(h, t) &&
      (FindNode(h, root, x).Some? ==> Elems(t) == Elems(root) - multiset{x} && Size(t) + 1 == Size(root)) &&
      (FindNode(h, root, x).None? ==> t == root) &&
      (NoCollision(h, root, x) ==> Elems(t) == Elems(root) - multiset{x})
    ensures var t := Remove(h, root, Some(x)).value;
      Unique(root) ==>
        Unique(t) && FindNode(h, t, x).None? && (NoCollision(h, root, x) ==> x !in Elems(t))
  {
    if root != Nil && FindNode(h, root, x).Some? {
      RemoveFound(h, root, x);
    }
    if NoCollision(h, root, x) {
      FindNodeComplete(h, root, x);
    }
    if Unique(root) {
      RemoveUnique(h, root, x);
    }
  }

  /** Without duplicates, a removal leaves none and takes the key out for
      good: `findNode` no longer finds it. */
  lemma RemoveUnique<T>(h: T -> int, root: Tree<T>, x: T)
    requires IsRbTree(h, root) && Unique(root)
    ensures Remove(h, root, Some(x)).Ok?
    ensures var t := Remove(h, root, Some(x)).value;
      Unique(t) && FindNode(h, t, x).None?
  {
    if root != Nil && FindNode(h, root, x).Some? {
      var t := Remove(h, root, Some(x)).value;
      RemoveFound(h, root, x);
      assert t == RemoveOnSon(h, root, x).tree;
      UniqueLess(t, root, x);
    }
  }

  /** A tree holding one occurrence of `x` less than a tree without
      duplicates has no duplicates and no `x`. */
  lemma UniqueLess<T>(t: Tree<T>, root: Tree<T>, x: T)
    requires Unique(root) && Elems(t) + multiset{x} == Elems(root)
    ensures Unique(t) && x !in Elems(t)
  {
    assert x in Elems(root);
    forall z | z in Elems(t) ensures Elems(t)[z] == 1 {
      assert Elems(t)[z] <= Elems(root)[z];
    }
  }

  /** `RemoveSpec` for a key that `findNode` finds (corrected chain). */
  lemma RemoveFound<T>(h: T -> int, root: Tree<T>, x: T)
    requires IsRbTree(h, root) && root.Node? && FindNode(h, root, x).Some?
    ensures var t := RemoveOnSon(h, root, x).tree;
      IsRbTree(h, t) && Elems(t) + multiset{x} == Elems(root) &&
      Elems(t) == Elems(root) - multiset{x} && Size(t) + 1 == Size(root)
  {
    var t := RemoveOnSon(h, root, x).tree;
    RemoveOnSonValid(h, root, x);
    SizeElems(t);
    SizeElems(root);
  }

  /** Removing keys one after another. */
  function RemoveAll<T(==)>(h: T -> int, root: Tree<T>, xs: seq<T>): (r: Tree<T>)
    decreases |xs|
  {
    if xs == [] then root else RemoveAll(h, Remove(h, root, Some(xs[0])).value, xs[1..])
  }

  /** With an injective hash every corrected removal takes out one
      occurrence of the key when it is present, and the tree stays valid. */
  lemma {:induction false} RemoveAllSpec<T(!new)>(h: T -> int, root: Tree<T>, xs: seq<T>)
    requires IsRbTree(h, root) && Injective(h)
    ensures IsRbTree(h, RemoveAll(h, root, xs))
    ensures Elems(RemoveAll(h, root, xs)) == Elems(root) - multiset(xs)
    decreases |xs|
  {
    if xs != [] {
      var t := Remove(h, root, Some(xs[0])).value;
      RemoveInjective(h, root, xs[0]);
      RemoveAllSpec(h, t, xs[1..]);
      MultisetHead(xs);
      MinusTwice(Elems(root), xs[0], multiset(xs[1..]));
    }
  }

  /** One corrected removal under an injective hash takes out one occurrence
      of the key. */
  lemma RemoveInjective<T(!new)>(h: T -> int, root: Tree<T>, x: T)
    requires IsRbTree(h, root) && Injective(h)
    ensures Remove(h, root, Some(x)).Ok?
    ensures var t := Remove(h, root, Some(x)).value;
      IsRbTree(h, t) && Elems(t) == Elems(root) - multiset{x}
  {
    assert NoCollision(h, root, x);
    RemoveSpec(h, root, x);
  }

  lemma MinusTwice<T>(A: multiset<T>, x: T, B: multiset<T>)
    ensures A - multiset{x} - B == A - (multiset{x} + B)
  {
  }

  /** Inserting distinct keys into the empty tree and then removing the same
      keys in any order with the corrected `Remove` leaves the empty tree,
      every version on the way being valid. */
  lemma InsertThenRemoveAll<T(!new)>(h: T -> int, xs: seq<T>, ys: seq<T>)
    requires Injective(h) && Distinct(xs) && multiset(ys) == multiset(xs)
    ensures var t := InsertAll(h, Nil, xs);
      IsRbTree(h, t) && Size(t) == |xs| && RemoveAll(h, t, ys) == Nil
  {
    var t := InsertAll(h, Nil, xs);
    InsertAllSpec(h, Nil, xs);
    InsertAllDistinct(h, Nil, xs);
    RemoveAllSpec(h, t, ys);
  }

  /** Inserting a new key whose hash no stored key shares and removing it
      again with the corrected `Remove` gives back a valid version with the
      original contents. */
  lemma InsertThenRemove<T>(h: T -> int, root: Tree<T>, x: T)
    requires IsRbTree(h, root) && x !in Elems(root) && NoCollision(h, root, x)
    ensures var t := Remove(h, Insert(h, root, Some(x)).value, Some(x));
      t.Ok? && IsRbTree(h, t.value) && Elems(t.value) == Elems(root)
  {
    InsertSpec(h, root, x);
    var t := Insert(h, root, Some(x)).value;
    assert NoCollision(h, t, x);
    RemoveSpec(h, t, x);
  }

  // ---------------------------------------------------------------------
  // Discrepancies between the source and its documented behaviour

  /** Line 348: with `1` alone in the tree, removing the absent key `2` finds
      no right son, treats that as a match and removes `1`; guarded by the
      lookup, `Remove` leaves the version unchanged. */
  lemma AbsentKeyRemoved()
    ensures var root := Node(false, 1, Nil, Nil);
      2 !in Elems(root) && RemoveAsWritten(Identity, root, Some(2)) == Ok(Nil) &&
      Remove(Identity, root, Some(2)) == Ok(root)
  {
    var root := Node(false, 1, Nil, Nil);
    assert FindNode(Identity, Nil, 2) == None;
    assert FindNode(Identity, root, 2) == None;
  }

  /** Line 442: removing the red leaf `1` from the valid tree 2(1, 3) as
      written also drops its brother `3`; the corrected step keeps it. */
  lemma RedLeafDropsBrother()
    ensures var p := Node(false, 2, Node(true, 1, Nil, Nil), Node(true, 3, Nil, Nil));
      IsRbTree(Identity, p) &&
      RemoveSonAsWritten(p, true).tree == Node(false, 2, Nil, Nil) &&
      Reattach(p, true, RemoveSon(p.left)).tree == Node(false, 2, Nil, Node(true, 3, Nil, Nil))
  {
  }

  /** Outside the case of line 442 with a brother present, the step as
      written and the corrected one agree. */
  lemma RemoveSonAgrees<T>(p: Tree<T>, sonLeft: bool)
    requires p.Node? && Child(p, sonLeft).Node?
    requires Child(p, sonLeft).left == Nil || Child(p, sonLeft).right == Nil
    ensures var son := Child(p, sonLeft);
      (son.left == Nil && son.right == Nil && son.red && Child(p, !sonLeft) != Nil) ||
      RemoveSonAsWritten(p, sonLeft) == Reattach(p, sonLeft, RemoveSon(son))
  {
  }

  /** Line 442 on a parent whose son is a red leaf loses that leaf and the
      whole subtree of its brother: nothing else of the parent's keys goes. */
  lemma RemoveSonAsWrittenLoses<T>(p: Tree<T>, sonLeft: bool)
    requires p.Node? && RB(p) && Child(p, sonLeft).Node?
    requires Child(p, sonLeft).left == Nil && Child(p, sonLeft).right == Nil && Child(p, sonLeft).red
    ensures Elems(RemoveSonAsWritten(p, sonLeft).tree) + multiset{Child(p, sonLeft).key} + Elems(Child(p, !sonLeft))
      == Elems(p)
  {
  }

  /** Removing the red leaf `1` from 2(1, 3) as written leaves 2 alone; the
      corrected removal keeps 3. */
  lemma RemoveAsWrittenDropsBrother()
    ensures var t := Node(false, 2, Node(true, 1, Nil, Nil), Node(true, 3, Nil, Nil));
      IsRbTree(Identity, t) &&
      RemoveAsWritten(Identity, t, Some(1)) == Ok(Node(false, 2, Nil, Nil)) &&
      Remove(Identity, t, Some(1)) == Ok(Node(false, 2, Nil, Node(true, 3, Nil, Nil)))
  {
    var t := Node(false, 2, Node(true, 1, Nil, Nil), Node(true, 3, Nil, Nil));
    assert FindNode(Identity, t, 1) == Some(1);
  }

  /** Removing 4 from the valid tree 4(2(1, 3), 6) as written: the rightmost
      key 3 of the left subtree is removed through line 420, and line 442 on
      the copy of 2 drops 1 as well.  The result 3(2, 6) still satisfies every
      invariant (`LossResultValid`), so `valid()` passes; the corrected removal
      keeps 1. */
  lemma RemoveAsWrittenLosesKey()
    ensures var t := Node(false, 4, Node(false, 2, Node(true, 1, Nil, Nil), Node(true, 3, Nil, Nil)),
                          Node(false, 6, Nil, Nil));
      RemoveAsWritten(Identity, t, Some(4)) == Ok(Node(false, 3, Node(false, 2, Nil, Nil), Node(false, 6, Nil, Nil))) &&
      Remove(Identity, t, Some(4)) == Ok(Node(false, 3, Node(false, 2, Node(true, 1, Nil, Nil), Nil),
                                              Node(false, 6, Nil, Nil)))
  {
    var l := Node(false, 2, Node(true, 1, Nil, Nil), Node(true, 3, Nil, Nil));
    var six := Node(false, 6, Nil, Nil);
    var t := Node(false, 4, l, six);
    assert RemoveSonAsWritten(l, false) == Fixup(Node(false, 2, Nil, Nil), false);
    assert RemoveRightmostAsWritten(l) == (Fixup(Node(false, 2, Nil, Nil), false), 3);
    assert RemoveBothAsWritten(t) == Fixup(Node(false, 3, Node(false, 2, Nil, Nil), six), false);
    assert RemoveSon(l.right) == Fixup(Nil, false);
    assert RemoveRightmost(l) == (Fixup(Node(false, 2, Node(true, 1, Nil, Nil), Nil), false), 3);
    assert RemoveMatch(t) == Fixup(Node(false, 3, Node(false, 2, Node(true, 1, Nil, Nil), Nil), six), false);
    assert FindNode(Identity, t, 4) == Some(4);
  }

  /** The input of `RemoveAsWrittenLosesKey` is a valid version. */
  lemma LossInputValid(l: Tree<int>, r: Tree<int>)
    requires l == Node(false, 2, Node(true, 1, Nil, Nil), Node(true, 3, Nil, Nil))
    requires r == Node(false, 6, Nil, Nil)
    ensures IsRbTree(Identity, Node(false, 4, l, r))
  {
    var t := Node(false, 4, l, r);
    assert Keys(l) == [1, 2, 3] && Keys(r) == [6];
    assert Keys(t) == [1, 2, 3, 4, 6];
    assert SortedSeq(Identity, Keys(t));
    SortedKeys(Identity, t);
    assert Sorted(Identity, t);
    assert RB(l) && BH(l) == 1 && RB(r) && BH(r) == 1;
  }

  /** The result of `RemoveAsWrittenLosesKey` is a valid version too, so
      `valid()` passes, and it no longer holds 1. */
  lemma LossResultValid()
    ensures var w := Node(false, 3, Node(false, 2, Nil, Nil), Node(false, 6, Nil, Nil));
      IsRbTree(Identity, w) && Elems(w) == multiset{2, 3, 6}
  {
    var two, six := Node(false, 2, Nil, Nil), Node(false, 6, Nil, Nil);
    assert Elems(two) == multiset{2} && Elems(six) == multiset{6};
  }

  /** No red leaf has a brother: the only case where line 442 loses a key. */
  predicate RedLeavesAlone<T>(t: Tree<T>) {
    match t
    case Nil => true
    case Node(_, _, l, r) =>
      (l.Node? && l.red && l.left == Nil && l.right == Nil ==> r == Nil) &&
      (r.Node? && r.red && r.left == Nil && r.right == Nil ==> l == Nil) &&
      RedLeavesAlone(l) && RedLeavesAlone(r)
  }

  /** Where no red leaf has a brother, `removeRightmost` as written and the
      corrected one agree. */
  lemma {:induction false} RightmostAgrees<T>(y: Tree<T>)
    requires y.Node? && y.right.Node? && RedLeavesAlone(y)
    ensures RemoveRightmostAsWritten(y) == RemoveRightmost(y)
    decreases y
  {
    if y.right.right == Nil {
      RemoveSonAgrees(y, false);
    } else {
      RightmostAgrees(y.right);
    }
  }

  /** Where no red leaf has a brother, removing a matched node with two sons
      as written agrees with the corrected step. */
  lemma BothAgrees<T>(s: Tree<T>)
    requires s.Node? && s.left.Node? && s.right.Node? && RedLeavesAlone(s)
    ensures RemoveBothAsWritten(s) == RemoveMatch(s)
  {
    if s.left.right != Nil {
      RightmostAgrees(s.left);
    }
  }

  /** Where no red leaf has a brother, the descent as written on `p`
      agrees with the corrected descent on its son, put back under `p`. */
  lemma {:induction false} OnSonAgrees<T>(h: T -> int, p: Tree<T>, side: bool, x: T)
    requires p.Node? && Child(p, side).Node? && RedLeavesAlone(p)
    ensures RemoveOnSonAsWritten(h, p, side, x) == Reattach(p, side, RemoveOnSon(h, Child(p, side), x))
    decreases p
  {
    var s := Child(p, side);
    var goLeft := h(x) < h(s.key);
    var g := if goLeft then s.left else if x != s.key then s.right else Nil;
    if g != Nil {
      OnSonAgrees(h, s, goLeft, x);
    } else if s.left != Nil && s.right != Nil {
      BothAgrees(s);
    } else {
      RemoveSonAgrees(p, side);
    }
  }

  /** Where no red leaf has a brother, `remove` as written and the corrected
      `Remove` agree on every key `findNode` finds; they differ otherwise only
      by Finding 2's guard. */
  lemma RemoveAsWrittenAgrees<T>(h: T -> int, root: Tree<T>, x: T)
    requires RedLeavesAlone(root) && (root == Nil || FindNode(h, root, x).Some?)
    ensures RemoveAsWritten(h, root, Some(x)) == Remove(h, root, Some(x))
  {
    if root.Node? {
      var goLeft := h(x) < h(root.key);
      var g := if goLeft then root.left else if x != root.key then root.right else Nil;
      if g != Nil {
        OnSonAgrees(h, root, goLeft, x);
      } else if root.left != Nil && root.right != Nil {
        BothAgrees(root);
      }
    }
  }

  // ---------------------------------------------------------------------
  // What removal as written still keeps

  /** `A` is a sub-multiset of `B` with fewer elements. */
  ghost predicate Fewer<T>(A: multiset<T>, B: multiset<T>) {
    A <= B && |A| < |B|
  }

  /** A multiset inside `B` once one more element is added holds fewer
      elements than `B`. */
  lemma FewerByOne<T>(A: multiset<T>, B: multiset<T>, k: T)
    requires A + multiset{k} <= B
    ensures Fewer(A, B)
  {
    var C := A + multiset{k};
    assert B == C + (B - C);
  }

  /** The parent's step for a replacement that is valid, ordered and holds
      fewer keys than the son it replaces. */
  lemma ReattachFewer<T>(h: T -> int, p: Tree<T>, side: bool, f: Fixup<T>)
    requires p.Node? && RB(p) && Sorted(h, p)
    requires Shortened(Child(p, side), f) && Sorted(h, f.tree) && Fewer(Elems(f.tree), Elems(Child(p, side)))
    ensures var r := Reattach(p, side, f);
      Shortened(p, r) && Sorted(h, r.tree) && Fewer(Elems(r.tree), Elems(p))
  {
    var p1 := WithChild(p, side, f.tree);
    ReattachValid(p, side, f);
    assert forall z :: z in Elems(f.tree) ==> z in Elems(Child(p, side));
    SortedWithFewer(h, p, side, f.tree);
    SortedSameKeys(h, p1, Reattach(p, side, f).tree);
    ElemsSameKeys(p1, Reattach(p, side, f).tree);
    if side {
      assert Elems(p1) == Elems(f.tree) + multiset{p.key} + Elems(p.right);
    } else {
      assert Elems(p1) == Elems(p.left) + multiset{p.key} + Elems(f.tree);
    }
  }

  /** Below `y` in its right slot: a subtree holding fewer keys of the right
      son, all hashing no higher than `k`, which the right son held. */
  lemma RebuildBelow<T>(h: T -> int, y: Tree<T>, c: Tree<T>, k: T, t: Tree<T>)
    requires y.Node? && Sorted(h, y) && Sorted(h, c)
    requires Elems(c) + multiset{k} <= Elems(y.right)
    requires forall z :: z in Elems(c) ==> h(z) <= h(k)
    requires Keys(t) == Keys(WithChild(y, false, c))
    ensures Sorted(h, t) && Elems(t) + multiset{k} <= Elems(y)
    ensures forall z :: z in Elems(t) ==> h(z) <= h(k)
  {
    var y1 := WithChild(y, false, c);
    assert forall z :: z in Elems(c) ==> z in Elems(y.right);
    SortedWithFewer(h, y, false, c);
    SortedSameKeys(h, y1, t);
    ElemsSameKeys(y1, t);
    assert k in Elems(y.right);
    RightSlotElems(y, c, k);
    RightSlotBelow(h, y, c, k);
  }

  /** Every key of `y` with `c` in its right slot hashes no higher than a
      key `k` of the right son that bounds `c`. */
  lemma RightSlotBelow<T>(h: T -> int, y: Tree<T>, c: Tree<T>, k: T)
    requires y.Node? && Sorted(h, y) && k in Elems(y.right)
    requires forall z :: z in Elems(c) ==> h(z) <= h(k)
    ensures forall z :: z in Elems(WithChild(y, false, c)) ==> h(z) <= h(k)
  {
    assert h(y.key) <= h(k);
    assert Elems(WithChild(y, false, c)) == Elems(y.left) + multiset{y.key} + Elems(c);
  }

  /** The multiset side of `RebuildBelow`. */
  lemma RightSlotElems<T>(y: Tree<T>, c: Tree<T>, k: T)
    requires y.Node? && Elems(c) + multiset{k} <= Elems(y.right)
    ensures Elems(WithChild(y, false, c)) + multiset{k} <= Elems(y)
  {
    var A := Elems(y.left) + multiset{y.key};
    assert Elems(WithChild(y, false, c)) + multiset{k} == A + (Elems(c) + multiset{k});
    assert Elems(y) == A + Elems(y.right);
  }

  /** `r`, the result of a rightmost step on `y`, is a valid, ordered
      replacement for `y` below the returned key, which it no longer holds. */
  ghost predicate RightmostOk<T>(h: T -> int, y: Tree<T>, r: (Fixup<T>, T)) {
    Shortened(y, r.0) && Sorted(h, r.0.tree) && Elems(r.0.tree) + multiset{r.1} <= Elems(y) &&
    forall z :: z in Elems(r.0.tree) ==> h(z) <= h(r.1)
  }

  /** `removeRightmost` as written leaves a valid, ordered replacement below
      the key it returns; it removes that key, and with line 442 possibly the
      brother of the last node too. */
  lemma {:induction false} RightmostAsWrittenValid<T>(h: T -> int, y: Tree<T>)
    requires y.Node? && y.right.Node? && RB(y) && Sorted(h, y)
    ensures RightmostOk(h, y, RemoveRightmostAsWritten(y))
    decreases y
  {
    var s := y.right;
    if s.right == Nil {
      if s.left == Nil && s.red && y.left != Nil {
        RightmostDropsBrother(h, y);
      } else {
        RightmostLast(h, y);
      }
    } else {
      assert RB(s) && Sorted(h, s);
      RightmostAsWrittenValid(h, s);
      RightmostDeeper(h, y, RemoveRightmostAsWritten(s));
    }
  }

  /** Line 442 at the last node, a red leaf with a brother: `y` becomes a
      leaf of its own colour. */
  lemma RightmostDropsBrother<T>(h: T -> int, y: Tree<T>)
    requires y.Node? && y.right.Node? && RB(y) && Sorted(h, y)
    requires y.right.left == Nil && y.right.right == Nil && y.right.red && y.left != Nil
    ensures RightmostOk(h, y, RemoveRightmostAsWritten(y))
  {
    var s := y.right;
    var t := Node(y.red, y.key, Nil, Nil);
    assert RemoveRightmostAsWritten(y) == (Fixup(t, false), s.key);
    assert BH(s) == 0;
    assert BH(y.left) == BH(s);
    assert BH(t) == BH(y) && RB(t);
    assert Elems(y) == Elems(y.left) + multiset{y.key} + Elems(s);
    assert s.key in Elems(s);
    assert Elems(t) == multiset{y.key};
    assert h(y.key) <= h(s.key);
  }

  /** The last node otherwise: the step as written is the corrected one. */
  lemma RightmostLast<T>(h: T -> int, y: Tree<T>)
    requires y.Node? && y.right.Node? && RB(y) && Sorted(h, y) && y.right.right == Nil
    requires !(y.right.left == Nil && y.right.red && y.left != Nil)
    ensures RightmostOk(h, y, RemoveRightmostAsWritten(y))
  {
    var s := y.right;
    RemoveSonAgrees(y, false);
    var f := RemoveSon(s);
    assert RemoveRightmostAsWritten(y) == (Reattach(y, false, f), s.key);
    assert RB(s);
    RemoveSonValid(s);
    RemoveSonElems(s);
    ReattachValid(y, false, f);
    assert forall z :: z in Elems(f.tree) ==> z in Elems(s.left);
    assert Sorted(h, s) && Sorted(h, f.tree);
    RebuildBelow(h, y, f.tree, s.key, Reattach(y, false, f).tree);
  }

  /** The step above the last node: the parent's step on `y`. */
  lemma RightmostDeeper<T>(h: T -> int, y: Tree<T>, r: (Fixup<T>, T))
    requires y.Node? && y.right.Node? && RB(y) && Sorted(h, y) && y.right.right != Nil
    requires r == RemoveRightmostAsWritten(y.right) && RightmostOk(h, y.right, r)
    ensures RightmostOk(h, y, RemoveRightmostAsWritten(y))
  {
    var (f, k) := r;
    assert RemoveRightmostAsWritten(y) == (Reattach(y, false, f), k);
    ReattachValid(y, false, f);
    RebuildBelow(h, y, f.tree, k, Reattach(y, false, f).tree);
  }

  /** Lines 376-397 as written leave a valid, ordered replacement for the
      matched node `s` without its key. */
  lemma BothAsWrittenValid<T>(h: T -> int, s: Tree<T>)
    requires s.Node? && s.left.Node? && s.right.Node? && RB(s) && Sorted(h, s)
    ensures var f := RemoveBothAsWritten(s);
      Shortened(s, f) && Sorted(h, f.tree) && Elems(f.tree) + multiset{s.key} <= Elems(s)
  {
    var l := s.left;
    if l.right == Nil {
      MatchLeftSonValid(h, s);
    } else {
      RightmostAsWrittenValid(h, l);
      var (g, k) := RemoveRightmostAsWritten(l);
      assert Shortened(l, g) && Sorted(h, g.tree) && Elems(g.tree) + multiset{k} <= Elems(l);
      assert forall z :: z in Elems(g.tree) ==> h(z) <= h(k);
      var son := Node(s.red, k, l, s.right);
      assert RB(son) && BH(son) == BH(s);
      ReattachValid(son, true, g);
      var x := Node(s.red, k, g.tree, s.right);
      assert k in Elems(l);
      assert Sorted(h, x);
      SortedSameKeys(h, x, RemoveBothAsWritten(s).tree);
      ElemsSameKeys(x, RemoveBothAsWritten(s).tree);
    }
  }

  /** `f` is a valid, ordered replacement for `p` holding fewer keys. */
  ghost predicate OnSonOk<T>(h: T -> int, p: Tree<T>, f: Fixup<T>) {
    Shortened(p, f) && Sorted(h, f.tree) && Fewer(Elems(f.tree), Elems(p))
  }

  /** The descent as written on `p` leaves a valid, ordered replacement for
      `p` holding fewer keys, whatever the key looked for. */
  lemma {:induction false} OnSonAsWrittenValid<T>(h: T -> int, p: Tree<T>, side: bool, x: T)
    requires p.Node? && Child(p, side).Node? && RB(p) && Sorted(h, p)
    ensures OnSonOk(h, p, RemoveOnSonAsWritten(h, p, side, x))
    decreases p
  {
    var s := Child(p, side);
    var goLeft := h(x) < h(s.key);
    var g := if goLeft then s.left else if x != s.key then s.right else Nil;
    OnSonSteps(h, p, side, x);
    var r := RemoveOnSonAsWritten(h, p, side, x);
    assert RB(s) && Sorted(h, s);
    if g != Nil {
      var f := RemoveOnSonAsWritten(h, s, goLeft, x);
      assert r == Reattach(p, side, f);
      OnSonAsWrittenValid(h, s, goLeft, x);
      ReattachFewer(h, p, side, f);
      assert OnSonOk(h, p, Reattach(p, side, f));
    } else if s.left != Nil && s.right != Nil {
      var f := RemoveBothAsWritten(s);
      assert r == Reattach(p, side, f);
      BothAsWrittenValid(h, s);
      FewerByOne(Elems(f.tree), Elems(s), s.key);
      ReattachFewer(h, p, side, f);
      assert OnSonOk(h, p, Reattach(p, side, f));
    } else if s.left == Nil && s.right == Nil && s.red && Child(p, !side) != Nil {
      var t := Node(p.red, p.key, Nil, Nil);
      assert r == Fixup(t, false);
      KeepOnlyRoot(p, side);
      assert Sorted(h, t);
      assert OnSonOk(h, p, Fixup(t, false));
    } else {
      RemoveSonAgrees(p, side);
      var f := RemoveSon(s);
      assert r == Reattach(p, side, f);
      MatchSonValid(h, s);
      FewerByOne(Elems(f.tree), Elems(s), s.key);
      ReattachFewer(h, p, side, f);
      assert OnSonOk(h, p, Reattach(p, side, f));
    }
  }

  /** One step of the descent as written, case by case. */
  lemma OnSonSteps<T>(h: T -> int, p: Tree<T>, side: bool, x: T)
    requires p.Node? && Child(p, side).Node?
    ensures var s := Child(p, side);
      var goLeft := h(x) < h(s.key);
      var g := if goLeft then s.left else if x != s.key then s.right else Nil;
      var r := RemoveOnSonAsWritten(h, p, side, x);
      (g != Nil ==> r == Reattach(p, side, RemoveOnSonAsWritten(h, s, goLeft, x))) &&
      (g == Nil && s.left != Nil && s.right != Nil ==> r == Reattach(p, side, RemoveBothAsWritten(s))) &&
      (g == Nil && (s.left == Nil || s.right == Nil) ==> r == RemoveSonAsWritten(p, side))
  {
  }

  /** A node whose `side` son is a red leaf and whose other son exists,
      cut down to its own key, is a valid replacement with fewer keys. */
  lemma KeepOnlyRoot<T>(p: Tree<T>, side: bool)
    requires p.Node? && Child(p, side).Node? && RB(p)
    requires var s := Child(p, side);
      s.left == Nil && s.right == Nil && s.red && Child(p, !side) != Nil
    ensures var t := Node(p.red, p.key, Nil, Nil);
      Shortened(p, Fixup(t, false)) && Fewer(Elems(t), Elems(p))
  {
    var s := Child(p, side);
    var b := Child(p, !side);
    var t := Node(p.red, p.key, Nil, Nil);
    assert BH(s) == 0;
    assert BH(b) == BH(s);
    assert BH(t) == BH(p) && RB(t);
    assert Elems(p) == Elems(p.left) + multiset{p.key} + Elems(p.right);
    assert s.key in Elems(s);
    assert Elems(t) == multiset{p.key};
  }

  /** `remove` as written keeps every invariant, so `valid()` passes after
      it, and it takes at least one key out of a non-empty version, whatever
      the key. */
  lemma RemoveAsWrittenValid<T>(h: T -> int, root: Tree<T>, x: T)
    requires IsRbTree(h, root)
    ensures RemoveAsWritten(h, root, Some(x)).Ok?
    ensures var t := RemoveAsWritten(h, root, Some(x)).value;
      IsRbTree(h, t) && (root != Nil ==> Fewer(Elems(t), Elems(root)) && Size(t) < Size(root))
  {
    if root.Node? {
      var goLeft := h(x) < h(root.key);
      var g := if goLeft then root.left else if x != root.key then root.right else Nil;
      var t := RemoveAsWritten(h, root, Some(x)).value;
      if g != Nil {
        var f := RemoveOnSonAsWritten(h, root, goLeft, x);
        assert t == f.tree;
        OnSonAsWrittenValid(h, root, goLeft, x);
        TopLevelOk(h, root, f);
      } else if root.left != Nil && root.right != Nil {
        var f := RemoveBothAsWritten(root);
        assert t == f.tree;
        BothAsWrittenValid(h, root);
        FewerByOne(Elems(f.tree), Elems(root), root.key);
        TopLevelOk(h, root, f);
      } else {
        var f := RemoveSon(root);
        assert t == f.tree;
        MatchSonValid(h, root);
        FewerByOne(Elems(f.tree), Elems(root), root.key);
        TopLevelOk(h, root, f);
      }
    }
  }

  /** A valid replacement for a black root with fewer keys is a valid,
      smaller version. */
  lemma TopLevelOk<T>(h: T -> int, root: Tree<T>, f: Fixup<T>)
    requires IsRbTree(h, root) && root.Node?
    requires Shortened(root, f) && Sorted(h, f.tree) && Fewer(Elems(f.tree), Elems(root))
    ensures IsRbTree(h, f.tree) && Size(f.tree) < Size(root)
  {
    SizeElems(f.tree);
    SizeElems(root);
  }

  /** Removing keys one after another, as written. */
  function RemoveAllAsWritten<T(==)>(h: T -> int, root: Tree<T>, xs: seq<T>): (r: Tree<T>)
    decreases |xs|
  {
    if xs == [] then root else RemoveAllAsWritten(h, RemoveAsWritten(h, root, Some(xs[0])).value, xs[1..])
  }

  /** Every version on the way stays valid, and each removal takes out at
      least one key until the version is empty. */
  lemma {:induction false} RemoveAllAsWrittenSpec<T>(h: T -> int, root: Tree<T>, xs: seq<T>)
    requires IsRbTree(h, root)
    ensures var t := RemoveAllAsWritten(h, root, xs);
      IsRbTree(h, t) && (t == Nil || Size(t) + |xs| <= Size(root))
    decreases |xs|
  {
    if xs != [] {
      RemoveAsWrittenValid(h, root, xs[0]);
      RemoveAllAsWrittenSpec(h, RemoveAsWritten(h, root, Some(xs[0])).value, xs[1..]);
    }
  }

  /** The insert-and-delete test as written: inserting distinct keys and then
      removing as many keys gives the empty tree, every version on the way
      passes `valid()`, and this holds for every hash.  The removals may lose
      keys (`RemoveAsWrittenLosesKey`); a later removal of a lost key then
      takes out another one (Finding 2), so the test cannot see it. */
  lemma InsertThenRemoveAllAsWritten<T>(h: T -> int, xs: seq<T>, ys: seq<T>)
    requires Distinct(xs) && |ys| == |xs|
    ensures var t := InsertAll(h, Nil, xs);
      IsRbTree(h, t) && Size(t) == |xs| && RemoveAllAsWritten(h, t, ys) == Nil
    ensures var t := InsertAll(h, Nil, xs);
      forall i :: 0 <= i <= |ys| ==> IsRbTree(h, RemoveAllAsWritten(h, t, ys[..i]))
  {
    var t := InsertAll(h, Nil, xs);
    InsertAllSpec(h, Nil, xs);
    InsertAllDistinct(h, Nil, xs);
    RemoveAllAsWrittenSpec(h, t, ys);
    forall i | 0 <= i <= |ys| ensures IsRbTree(h, RemoveAllAsWritten(h, t, ys[..i])) {
      RemoveAllAsWrittenSpec(h, t, ys[..i]);
    }
  }
}
