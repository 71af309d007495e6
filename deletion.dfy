/** Removal of a stem (`auxSupprimerRadical` and `enleverSuccMinDroit`,
    DicoSynonymes.cpp lines 540-558 and 759-778), as written:
    - a node with two children takes the KEY of its in-order successor (the
      leftmost node of its right subtree) and keeps its own inflections and
      group ids; the successor's node is unlinked instead;
    - on the walk down to the successor only the slot the successor leaves is
      rebalanced, then the node whose key changed: the nodes in between keep
      their old cached heights (see `RemoveLeavesStaleHeight`). */
module Deletion {
  import opened Order
  import opened StemTree
  import opened Balancing

  /** The stem of the leftmost node: the in-order successor of the node whose
      right subtree `t` is. */
  function MinKey(t: Tree): (k: string)
    requires t.Node?
    ensures k in Keys(t)
  {
    if t.left.Empty? then t.stem else MinKey(t.left)
  }

  /** In a search tree the leftmost stem is present and below every other. */
  lemma {:induction false} MinKeyIsLeast(t: Tree)
    requires t.Node? && BST(t)
    ensures MinKey(t) in Keys(t)
    ensures forall x :: x in Keys(t) && x != MinKey(t) ==> Less(MinKey(t), x)
  {
    if t.left.Node? {
      MinKeyIsLeast(t.left);
      forall x | x in Keys(t) && x != MinKey(t) ensures Less(MinKey(t), x) {
        if x == t.stem {
        } else if x in Keys(t.right) {
          LessTransitive(MinKey(t), t.stem, x);
        }
      }
    }
  }

  /** The `while` loop of `enleverSuccMinDroit`: from the right child of a
      node with two children, follow left links to the in-order successor. */
  method FindSuccessor(t: Tree) returns (successor: Tree)
    requires t.Node? && t.right.Node?
    ensures successor.Node? && successor.left.Empty?
    ensures successor.stem == MinKey(t.right)
  {
    successor := t.right;
    while successor.left.Node?
      invariant successor.Node? && MinKey(successor) == MinKey(t.right)
      decreases Size(successor)
    {
      successor := successor.left;
    }
  }

  /** The successor walk of `enleverSuccMinDroit` below the node being
      removed: the leftmost node's slot receives what `auxSupprimerRadical`
      makes of that node (it has no left child, so its right subtree,
      rebalanced); the nodes on the way down are left as they were, cached
      heights included. */
  function DetachMin(t: Tree): (u: Tree)
    requires t.Node?
    ensures Size(u) == Size(t) - 1
  {
    if t.left.Empty? then Rebalance(t.right)
    else t.(left := DetachMin(t.left))
  }

  /** Unlinking the leftmost node of a search tree removes exactly its stem and
      data, and keeps the search order. */
  lemma DetachMinBST(t: Tree)
    requires t.Node? && BST(t)
    ensures BST(DetachMin(t))
    ensures Keys(DetachMin(t)) == Keys(t) - {MinKey(t)}
    ensures Entries(DetachMin(t)) == Entries(t) - {MinKey(t)}
  {
    DetachMinKeys(t);
    DetachMinEntries(t);
  }

  lemma {:induction false} DetachMinKeys(t: Tree)
    requires t.Node? && BST(t)
    ensures BST(DetachMin(t))
    ensures Keys(DetachMin(t)) == Keys(t) - {MinKey(t)}
  {
    DisjointSides(t);
    if t.left.Empty? {
      RebalanceBST(t.right);
    } else {
      DetachMinKeys(t.left);
      MinKeyIsLeast(t.left);
      ReplaceLeftKeys(t, DetachMin(t.left), MinKey(t.left));
    }
  }

  lemma {:induction false} DetachMinEntries(t: Tree)
    requires t.Node? && BST(t)
    ensures Entries(DetachMin(t)) == Entries(t) - {MinKey(t)}
  {
    DisjointSides(t);
    var s, i := t.stem, t.info;
    var el, er := Entries(t.left), Entries(t.right);
    if t.left.Empty? {
      assert el == map[];
      DropRootEntry(el, s, i, er);
      assert el + er == er;
    } else {
      DetachMinEntries(t.left);
      MinKeyIsLeast(t.left);
      var m := MinKey(t.left);
      assert m != s && m !in er;
      LeftEntries(el, s, i, er, m, m, i);
    }
  }

  /** `auxSupprimerRadical`: the new root of `t` once stem `k` is removed. The
      caller has checked that the stem is present (line 235); the descent
      dereferences the node it reaches. */
  function Remove(t: Tree, k: string): (u: Tree)
    requires Contains(t, k)
    ensures Size(u) == Size(t) - 1
  {
    LessIrreflexive(k);
    if Less(k, t.stem) then
      Rebalance(t.(left := Remove(t.left, k)))
    else if Less(t.stem, k) then
      Rebalance(t.(right := Remove(t.right, k)))
    else if t.left.Node? && t.right.Node? then
      // enleverSuccMinDroit: the successor's key is copied into this node
      // (line 771), its node unlinked (lines 774-777), then line 557.
      Rebalance(t.(stem := MinKey(t.right), right := DetachMin(t.right)))
    else
      Rebalance(if t.left.Node? then t.left else t.right)
  }

  /** What a removal of `k` is to leave of the stems' data: the stem's entry
      goes; if its node has two children, the entry of its in-order successor
      is replaced by the removed stem's data. */
  ghost function AfterRemoval(t: Tree, k: string): map<string, Info> {
    var n := Locate(t, k);
    if n.Node? && n.left.Node? && n.right.Node? then (Entries(t) - {k})[MinKey(n.right) := n.info]
    else Entries(t) - {k}
  }

  /** What removing `k` leaves: the stem is gone and the search order holds. If
      its node had two children, the successor's stem now names the removed
      stem's data (its inflections and group ids) and the successor's own data
      is lost; otherwise every other stem keeps its data. */
  lemma {:induction false} RemoveBST(t: Tree, k: string)
    requires BST(t) && k in Keys(t)
    ensures Contains(t, k)
    ensures BST(Remove(t, k))
    ensures Keys(Remove(t, k)) == Keys(t) - {k}
    ensures Entries(Remove(t, k)) == AfterRemoval(t, k)
  {
    ContainsIffKey(t, k);
    LessIrreflexive(k);
    if Less(k, t.stem) {
      SidesOfKey(t, k);
      RemoveBST(t.left, k);
      RemoveInLeft(t, k);
    } else if Less(t.stem, k) {
      SidesOfKey(t, k);
      RemoveBST(t.right, k);
      RemoveInRight(t, k);
    } else {
      LessTotal(k, t.stem);
      if t.left.Node? && t.right.Node? {
        RemoveWithTwoChildren(t);
      } else {
        RemoveSplice(t);
      }
    }
  }

  /** Map bookkeeping for a node `el + {s: i} + er` whose own key goes. */
  lemma DropRootEntry(el: map<string, Info>, s: string, i: Info, er: map<string, Info>)
    requires s !in el && s !in er
    ensures (el + map[s := i] + er) - {s} == el + er
  {
  }

  /** ... whose key is replaced by `m`, taken out of the right side. */
  lemma ReplantEntry(el: map<string, Info>, m: string, i: Info, er: map<string, Info>)
    ensures el + map[m := i] + (er - {m}) == (el + er)[m := i]
  {
  }

  /** ... whose left side loses `k` (and, for a two-child node, has `m`
      rebound to `v`). */
  lemma LeftEntries(el: map<string, Info>, s: string, i: Info, er: map<string, Info>,
                    k: string, m: string, v: Info)
    requires k != s && k !in er && m != s && m !in er
    ensures (el - {k}) + map[s := i] + er == (el + map[s := i] + er) - {k}
    ensures (el - {k})[m := v] + map[s := i] + er == ((el + map[s := i] + er) - {k})[m := v]
  {
  }

  /** ... whose right side loses `k` (and may have `m` rebound to `v`). */
  lemma RightEntries(el: map<string, Info>, s: string, i: Info, er: map<string, Info>,
                     k: string, m: string, v: Info)
    requires k != s && k !in el
    ensures el + map[s := i] + (er - {k}) == (el + map[s := i] + er) - {k}
    ensures el + map[s := i] + (er - {k})[m := v] == ((el + map[s := i] + er) - {k})[m := v]
  {
  }

  /** The removed stem is at the root and has two children. */
  lemma RemoveWithTwoChildren(t: Tree)
    requires t.Node? && BST(t) && t.left.Node? && t.right.Node?
    ensures Contains(t, t.stem)
    ensures BST(Remove(t, t.stem))
    ensures Keys(Remove(t, t.stem)) == Keys(t) - {t.stem}
    ensures Entries(Remove(t, t.stem)) == AfterRemoval(t, t.stem)
  {
    LessIrreflexive(t.stem);
    var t' := t.(stem := MinKey(t.right), right := DetachMin(t.right));
    assert Remove(t, t.stem) == Rebalance(t');
    SuccessorKeys(t);
    SuccessorEntries(t);
    RebalanceBST(t');
  }

  /** The node whose key the successor's replaces stays a search tree. */
  lemma SuccessorKeys(t: Tree)
    requires t.Node? && BST(t) && t.right.Node?
    ensures var t' := t.(stem := MinKey(t.right), right := DetachMin(t.right));
            BST(t') && Keys(t') == Keys(t) - {t.stem}
  {
    var l, k, r := t.left, t.stem, t.right;
    DisjointSides(t);
    DetachMinKeys(r);
    MinKeyIsLeast(r);
    var m, d := MinKey(r), DetachMin(r);
    forall x | x in Keys(l) ensures Less(x, m) {
      LessTransitive(x, k, m);
    }
    forall x | x in Keys(d) ensures Less(m, x) {
      assert x in Keys(r) && x != m;
    }
    assert BST(t.(stem := m, right := d));
  }

  /** ... and carries the removed stem's data under the successor's key. */
  lemma SuccessorEntries(t: Tree)
    requires t.Node? && BST(t) && t.left.Node? && t.right.Node?
    ensures Entries(t.(stem := MinKey(t.right), right := DetachMin(t.right))) == AfterRemoval(t, t.stem)
  {
    var l, k, i, r := t.left, t.stem, t.info, t.right;
    DisjointSides(t);
    assert Locate(t, k) == t;
    DetachMinEntries(r);
    var m := MinKey(r);
    var el, er := Entries(l), Entries(r);
    DropRootEntry(el, k, i, er);
    ReplantEntry(el, m, i, er);
  }

  /** The removed stem is at the root and has at most one child. */
  lemma RemoveSplice(t: Tree)
    requires t.Node? && BST(t) && (t.left.Empty? || t.right.Empty?)
    ensures Contains(t, t.stem)
    ensures BST(Remove(t, t.stem))
    ensures Keys(Remove(t, t.stem)) == Keys(t) - {t.stem}
    ensures Entries(Remove(t, t.stem)) == AfterRemoval(t, t.stem)
  {
    var k := t.stem;
    LessIrreflexive(k);
    DisjointSides(t);
    var c := if t.left.Node? then t.left else t.right;
    assert Remove(t, k) == Rebalance(c);
    RebalanceBST(c);
    SpliceEntries(t, c);
  }

  lemma SpliceEntries(t: Tree, c: Tree)
    requires t.Node? && BST(t) && (t.left.Empty? || t.right.Empty?)
    requires c == if t.left.Node? then t.left else t.right
    ensures Keys(c) == Keys(t) - {t.stem}
    ensures Entries(c) == AfterRemoval(t, t.stem)
  {
    var k := t.stem;
    LessIrreflexive(k);
    DisjointSides(t);
    assert Locate(t, k) == t;
    assert AfterRemoval(t, k) == Entries(t) - {k};
    var el, er := Entries(t.left), Entries(t.right);
    DropRootEntry(el, k, t.info, er);
    if t.left.Node? {
      assert er == map[];
      assert el + er == el;
    } else {
      assert el == map[];
      assert el + er == er;
    }
  }

  /** The removed stem lies in the left subtree. */
  lemma RemoveInLeft(t: Tree, k: string)
    requires t.Node? && BST(t) && k in Keys(t.left) && Less(k, t.stem)
    requires Contains(t.left, k) && BST(Remove(t.left, k))
    requires Keys(Remove(t.left, k)) == Keys(t.left) - {k}
    requires Entries(Remove(t.left, k)) == AfterRemoval(t.left, k)
    ensures Contains(t, k)
    ensures BST(Remove(t, k))
    ensures Keys(Remove(t, k)) == Keys(t) - {k}
    ensures Entries(Remove(t, k)) == AfterRemoval(t, k)
  {
    var t' := t.(left := Remove(t.left, k));
    LessIrreflexive(k);
    assert Remove(t, k) == Rebalance(t');
    ReplaceLeft(t, t'.left, k);
    RebalanceBST(t');
  }

  /** A left side that loses `k` as removal does keeps the node a search
      tree, and the node's data becomes what removal is to leave. */
  lemma ReplaceLeft(t: Tree, l': Tree, k: string)
    requires t.Node? && BST(t) && k in Keys(t.left) && Less(k, t.stem)
    requires BST(l') && Keys(l') == Keys(t.left) - {k} && Entries(l') == AfterRemoval(t.left, k)
    ensures BST(t.(left := l')) && Keys(t.(left := l')) == Keys(t) - {k}
    ensures Entries(t.(left := l')) == AfterRemoval(t, k)
  {
    ReplaceLeftKeys(t, l', k);
    ReplaceLeftEntries(t, l', k);
  }

  lemma ReplaceLeftKeys(t: Tree, l': Tree, k: string)
    requires t.Node? && BST(t) && k in Keys(t.left)
    requires BST(l') && Keys(l') == Keys(t.left) - {k}
    ensures BST(t.(left := l')) && Keys(t.(left := l')) == Keys(t) - {k}
  {
    DisjointSides(t);
    forall x | x in Keys(l') ensures Less(x, t.stem) {
      assert x in Keys(t.left);
    }
  }

  lemma ReplaceLeftEntries(t: Tree, l': Tree, k: string)
    requires t.Node? && BST(t) && k in Keys(t.left) && Less(k, t.stem)
    requires Entries(l') == AfterRemoval(t.left, k)
    ensures Entries(t.(left := l')) == AfterRemoval(t, k)
  {
    var l, s, i, r := t.left, t.stem, t.info, t.right;
    DisjointSides(t);
    LessAsymmetric(k, s);
    assert Locate(t, k) == Locate(l, k);
    var n := Locate(l, k);
    LocateFinds(l, k);
    var el, er := Entries(l), Entries(r);
    assert k !in er && k != s;
    if n.left.Node? && n.right.Node? {
      var m := MinKey(n.right);
      MinKeyIsLeast(n.right);
      assert m in Keys(l);
      assert m != s && m !in er;
      LeftEntries(el, s, i, er, k, m, n.info);
    } else {
      LeftEntries(el, s, i, er, k, k, i);
    }
  }

  /** The removed stem lies in the right subtree. */
  lemma RemoveInRight(t: Tree, k: string)
    requires t.Node? && BST(t) && k in Keys(t.right) && Less(t.stem, k)
    requires Contains(t.right, k) && BST(Remove(t.right, k))
    requires Keys(Remove(t.right, k)) == Keys(t.right) - {k}
    requires Entries(Remove(t.right, k)) == AfterRemoval(t.right, k)
    ensures Contains(t, k)
    ensures BST(Remove(t, k))
    ensures Keys(Remove(t, k)) == Keys(t) - {k}
    ensures Entries(Remove(t, k)) == AfterRemoval(t, k)
  {
    var t' := t.(right := Remove(t.right, k));
    LessIrreflexive(k);
    LessAsymmetric(t.stem, k);
    assert Remove(t, k) == Rebalance(t');
    ReplaceRight(t, t'.right, k);
    RebalanceBST(t');
  }

  /** A right side that loses `k` as removal does: the mirror image. */
  lemma ReplaceRight(t: Tree, r': Tree, k: string)
    requires t.Node? && BST(t) && k in Keys(t.right) && Less(t.stem, k)
    requires BST(r') && Keys(r') == Keys(t.right) - {k} && Entries(r') == AfterRemoval(t.right, k)
    ensures BST(t.(right := r')) && Keys(t.(right := r')) == Keys(t) - {k}
    ensures Entries(t.(right := r')) == AfterRemoval(t, k)
  {
    ReplaceRightKeys(t, r', k);
    ReplaceRightEntries(t, r', k);
  }

  lemma ReplaceRightKeys(t: Tree, r': Tree, k: string)
    requires t.Node? && BST(t) && k in Keys(t.right)
    requires BST(r') && Keys(r') == Keys(t.right) - {k}
    ensures BST(t.(right := r')) && Keys(t.(right := r')) == Keys(t) - {k}
  {
    DisjointSides(t);
    forall x | x in Keys(r') ensures Less(t.stem, x) {
      assert x in Keys(t.right);
    }
  }

  lemma ReplaceRightEntries(t: Tree, r': Tree, k: string)
    requires t.Node? && BST(t) && k in Keys(t.right) && Less(t.stem, k)
    requires Entries(r') == AfterRemoval(t.right, k)
    ensures Entries(t.(right := r')) == AfterRemoval(t, k)
  {
    var l, s, i, r := t.left, t.stem, t.info, t.right;
    DisjointSides(t);
    assert Locate(t, k) == Locate(r, k);
    var n := Locate(r, k);
    LocateFinds(r, k);
    var el, er := Entries(l), Entries(r);
    assert k !in el && k != s;
    if n.left.Node? && n.right.Node? {
      RightEntries(el, s, i, er, k, MinKey(n.right), n.info);
    } else {
      RightEntries(el, s, i, er, k, s, i);
    }
  }

  /** The AVL tree b(a, d(c, -)). */
  function StaleExample(): (t: Tree)
    ensures t.Node? && t.right.Node? && t.stem == "b"
  {
    Node(Leaf("a"), "b", Info([], []), 2, Node(Leaf("c"), "d", Info([], []), 1, Empty))
  }

  lemma StaleExampleIsAVL()
    ensures BST(StaleExample()) && AVL(StaleExample()) && Contains(StaleExample(), "b")
  {
    assert Less("a", "b") && Less("b", "c") && Less("b", "d") && Less("c", "d");
  }

  /** The successor walk leaves stale cached heights: removing the root "b"
      from the AVL tree b(a, d(c, -)) leaves the root "c" with cached height 2
      and its right child "d" with cached height 1, although both are one
      level lower now, so the cached heights no longer hold. */
  lemma RemoveLeavesStaleHeight()
    ensures BST(StaleExample()) && AVL(StaleExample()) && Contains(StaleExample(), "b")
    ensures !HeightsCached(Remove(StaleExample(), "b"))
    ensures H(Remove(StaleExample(), "b")) == 2 && RealHeight(Remove(StaleExample(), "b")) == 1
  {
    StaleExampleIsAVL();
    var t := StaleExample();
    var d' := Node(Empty, "d", Info([], []), 1, Empty);
    assert MinKey(t.right) == "c";
    assert DetachMin(t.right) == d';
    var u := Node(Leaf("a"), "c", Info([], []), 2, d');
    LessIrreflexive("b");
    assert Remove(t, "b") == Rebalance(t.(stem := "c", right := d'));
    assert Rebalance(t.(stem := "c", right := d')) == u;
  }
}
