/** Rebalancing of the stem tree (DicoSynonymes.cpp, lines 628-752): the four
    balance tests, the two single rotations `zigZigGauche`/`zigZigDroit`, the
    two double rotations `zigZagGauche`/`zigZagDroit` built from them, and
    `equilibrer`. Each rotation returns the node that replaces `t` in its
    parent's slot. */
module Balancing {
  import opened Order
  import opened StemTree

  /** `debalancementAGauche`: the left side is more than one level taller. */
  predicate LeftHeavy(t: Tree)
    ensures LeftHeavy(t) ==> t.Node? && t.left.Node?
  {
    t.Node? && 1 < H(t.left) - H(t.right)
  }

  /** `debalancementADroite`: the right side is more than one level taller. */
  predicate RightHeavy(t: Tree)
    ensures RightHeavy(t) ==> t.Node? && t.right.Node?
  {
    t.Node? && 1 < H(t.right) - H(t.left)
  }

  /** `sousArbrePencheADroite` */
  predicate LeansRight(t: Tree)
    ensures LeansRight(t) ==> t.Node? && t.right.Node?
  {
    t.Node? && H(t.left) < H(t.right)
  }

  /** `sousArbrePencheAGauche` */
  predicate LeansLeft(t: Tree)
    ensures LeansLeft(t) ==> t.Node? && t.left.Node?
  {
    t.Node? && H(t.left) > H(t.right)
  }

  /** `zigZigGauche`: the left child becomes the root, the old root its right
      child; the two moved nodes get their heights recomputed. */
  function RotateWithLeftChild(t: Tree): (u: Tree)
    requires t.Node? && t.left.Node?
    ensures InOrder(u) == InOrder(t) && Keys(u) == Keys(t) && Entries(u) == Entries(t)
    ensures Size(u) == Size(t)
    ensures u.Node? && u.right.Node? && u.stem == t.left.stem && u.right.stem == t.stem
    ensures u.left == t.left.left && u.right.left == t.left.right && u.right.right == t.right
    ensures u.right.height == 1 + Max(H(t.left.right), H(t.right))
    ensures u.height == 1 + Max(H(t.left.left), u.right.height)
    ensures HeightsCached(t.left.left) && HeightsCached(t.left.right) && HeightsCached(t.right) ==>
              HeightsCached(u)
  {
    var n := t.left;
    var moved := Node(n.right, t.stem, t.info, 1 + Max(H(n.right), H(t.right)), t.right);
    Node(n.left, n.stem, n.info, 1 + Max(H(n.left), H(moved)), moved)
  }

  /** `zigZigDroit`: the mirror image. */
  function RotateWithRightChild(t: Tree): (u: Tree)
    requires t.Node? && t.right.Node?
    ensures InOrder(u) == InOrder(t) && Keys(u) == Keys(t) && Entries(u) == Entries(t)
    ensures Size(u) == Size(t)
    ensures u.Node? && u.left.Node? && u.stem == t.right.stem && u.left.stem == t.stem
    ensures u.right == t.right.right && u.left.right == t.right.left && u.left.left == t.left
    ensures u.left.height == 1 + Max(H(t.right.left), H(t.left))
    ensures u.height == 1 + Max(H(t.right.right), u.left.height)
    ensures HeightsCached(t.right.right) && HeightsCached(t.right.left) && HeightsCached(t.left) ==>
              HeightsCached(u)
  {
    var n := t.right;
    var moved := Node(t.left, t.stem, t.info, 1 + Max(H(t.left), H(n.left)), n.left);
    Node(moved, n.stem, n.info, 1 + Max(H(n.right), H(moved)), n.right)
  }

  /** `zigZagGauche`: a right rotation of the left child, then a left rotation
      of the root; the left child's right child comes up to the root. */
  function DoubleRotateWithLeftChild(t: Tree): (u: Tree)
    requires t.Node? && t.left.Node? && t.left.right.Node?
    ensures InOrder(u) == InOrder(t) && Keys(u) == Keys(t) && Entries(u) == Entries(t)
    ensures Size(u) == Size(t)
    ensures u.Node? && u.stem == t.left.right.stem
  {
    RotateWithLeftChild(t.(left := RotateWithRightChild(t.left)))
  }

  /** `zigZagDroit`: the mirror image. */
  function DoubleRotateWithRightChild(t: Tree): (u: Tree)
    requires t.Node? && t.right.Node? && t.right.left.Node?
    ensures InOrder(u) == InOrder(t) && Keys(u) == Keys(t) && Entries(u) == Entries(t)
    ensures Size(u) == Size(t)
    ensures u.Node? && u.stem == t.right.left.stem
  {
    RotateWithRightChild(t.(right := RotateWithLeftChild(t.right)))
  }

  /** `equilibrer`: a rotation when one side is more than one level taller (a
      double one when the taller child leans the other way), otherwise only a
      fresh cached height. Heights below 0 are impossible, so a heavy side and
      a leaning child are never null. */
  function Rebalance(t: Tree): (u: Tree)
    ensures InOrder(u) == InOrder(t) && Keys(u) == Keys(t) && Entries(u) == Entries(t)
    ensures Size(u) == Size(t)
    ensures t.Node? && -1 <= H(t.left) - H(t.right) <= 1 ==>
              u == t.(height := 1 + Max(H(t.left), H(t.right)))
    ensures LeftHeavy(t) ==> u.stem == if LeansRight(t.left) then t.left.right.stem else t.left.stem
    ensures RightHeavy(t) ==> u.stem == if LeansLeft(t.right) then t.right.left.stem else t.right.stem
  {
    if LeftHeavy(t) then
      if LeansRight(t.left) then DoubleRotateWithLeftChild(t) else RotateWithLeftChild(t)
    else if RightHeavy(t) then
      if LeansLeft(t.right) then DoubleRotateWithRightChild(t) else RotateWithRightChild(t)
    else if t.Node? then
      t.(height := 1 + Max(H(t.left), H(t.right)))
    else
      t
  }

  /** Rebalancing keeps the search order. */
  lemma RebalanceBST(t: Tree)
    requires BST(t)
    ensures BST(Rebalance(t))
  {
    SameInOrderBST(t, Rebalance(t));
  }

  /** Left-heavy case: applied to a node whose sides are AVL trees whose
      heights differ by exactly 2, `equilibrer` yields an AVL tree whose height
      is the taller side's or one more. */
  lemma RebalanceLeftHeavy(t: Tree)
    requires t.Node? && AVL(t.left) && AVL(t.right) && H(t.left) - H(t.right) == 2
    ensures AVL(Rebalance(t))
    ensures H(t.left) <= H(Rebalance(t)) <= H(t.left) + 1
  {
    var l, r := t.left, t.right;
    var hr := H(r);
    assert H(l) == hr + 2;
    if LeansRight(l) {
      var a, m := l.left, l.right;
      assert H(m) == hr + 1 && H(a) == hr;
      var b, c := m.left, m.right;
      assert AVL(a) && AVL(m) && AVL(b) && AVL(c);
      assert m.height == 1 + Max(H(b), H(c)) && -1 <= H(b) - H(c) <= 1;
      assert hr - 1 <= H(b) <= hr && hr - 1 <= H(c) <= hr;
      var v := RotateWithRightChild(l);
      var u := RotateWithLeftChild(t.(left := v));
      assert u == DoubleRotateWithLeftChild(t);
      assert v.left == Node(a, l.stem, l.info, v.left.height, b);
      assert v.left.height == hr + 1;
      assert u.left == v.left;
      assert u.right == Node(c, t.stem, t.info, u.right.height, r);
      assert u.right.height == hr + 1;
      assert u.height == hr + 2;
      assert AVL(u.left) && AVL(u.right);
    } else {
      var u := RotateWithLeftChild(t);
      assert H(l.left) == hr + 1;
      assert hr <= H(l.right) <= hr + 1;
      assert u.right.height == 1 + Max(H(l.right), hr);
    }
  }

  /** Right-heavy case, the mirror image. */
  lemma RebalanceRightHeavy(t: Tree)
    requires t.Node? && AVL(t.left) && AVL(t.right) && H(t.right) - H(t.left) == 2
    ensures AVL(Rebalance(t))
    ensures H(t.right) <= H(Rebalance(t)) <= H(t.right) + 1
  {
    var l, r := t.left, t.right;
    var hl := H(l);
    assert H(r) == hl + 2;
    if LeansLeft(r) {
      var m, a := r.left, r.right;
      assert H(m) == hl + 1 && H(a) == hl;
      var b, c := m.left, m.right;
      assert AVL(a) && AVL(m) && AVL(b) && AVL(c);
      assert m.height == 1 + Max(H(b), H(c)) && -1 <= H(b) - H(c) <= 1;
      assert hl - 1 <= H(b) <= hl && hl - 1 <= H(c) <= hl;
      var v := RotateWithLeftChild(r);
      var u := RotateWithRightChild(t.(right := v));
      assert u == DoubleRotateWithRightChild(t);
      assert v.right == Node(c, r.stem, r.info, v.right.height, a);
      assert v.right.height == hl + 1;
      assert u.right == v.right;
      assert u.left == Node(l, t.stem, t.info, u.left.height, b);
      assert u.left.height == hl + 1;
      assert u.height == hl + 2;
      assert AVL(u.left) && AVL(u.right);
    } else {
      var u := RotateWithRightChild(t);
      assert H(r.right) == hl + 1;
      assert hl <= H(r.left) <= hl + 1;
      assert u.left.height == 1 + Max(H(r.left), hl);
    }
  }

  /** `equilibrer` applied to a node whose sides are AVL trees differing in
      height by at most 2 yields an AVL tree with correct cached heights, as
      tall as the taller side or one more; with a difference of at most 1 it
      is exactly one more. */
  lemma RebalanceAVL(t: Tree)
    requires t.Node? && AVL(t.left) && AVL(t.right) && -2 <= H(t.left) - H(t.right) <= 2
    ensures AVL(Rebalance(t))
    ensures Max(H(t.left), H(t.right)) <= H(Rebalance(t)) <= 1 + Max(H(t.left), H(t.right))
    ensures -1 <= H(t.left) - H(t.right) <= 1 ==> H(Rebalance(t)) == 1 + Max(H(t.left), H(t.right))
  {
    if H(t.left) - H(t.right) == 2 {
      RebalanceLeftHeavy(t);
    } else if H(t.right) - H(t.left) == 2 {
      RebalanceRightHeavy(t);
    }
  }
}
