/** Insertion of a stem (`auxajouterRadical`, DicoSynonymes.cpp lines 501-512):
    a new leaf at the end of the search path, then `equilibrer` on every node of
    the path on the way back up. */
module Insertion {
  import opened Order
  import opened StemTree
  import opened Balancing

  /** The new root of `t` once `k` is inserted. A stem already present reaches
      its own node, which is only rebalanced (the public entry point refuses
      such stems before descending). */
  function Insert(t: Tree, k: string): (u: Tree)
    ensures Keys(u) == Keys(t) + {k}
  {
    match t
    case Empty => Leaf(k)
    case Node(l, s, _, _, r) =>
      if Less(s, k) then Rebalance(t.(right := Insert(r, k)))
      else if Less(k, s) then Rebalance(t.(left := Insert(l, k)))
      else LessTotal(k, s); Rebalance(t)
  }

  /** Inserting an absent stem into a search tree keeps the search order, adds
      one node holding the stem with no inflections and no groups, and leaves
      every other stem's data as it was. */
  lemma {:induction false} InsertBST(t: Tree, k: string)
    requires BST(t) && k !in Keys(t)
    ensures BST(Insert(t, k))
    ensures Size(Insert(t, k)) == Size(t) + 1
    ensures Entries(Insert(t, k)) == Entries(t)[k := Info([], [])]
  {
    match t
    case Empty =>
    case Node(l, s, i, h, r) =>
      LessTotal(k, s);
      DisjointSides(t);
      if Less(s, k) {
        InsertBST(r, k);
        var t' := t.(right := Insert(r, k));
        forall x | x in Keys(t'.right) ensures Less(s, x) {
          if x == k { } else { assert x in Keys(r); }
        }
        assert BST(t');
        RebalanceBST(t');
        UpdateRight(Entries(l) + map[s := i], Entries(r), k, Info([], []));
      } else {
        InsertBST(l, k);
        var t' := t.(left := Insert(l, k));
        forall x | x in Keys(t'.left) ensures Less(x, s) {
          if x == k { } else { assert x in Keys(l); }
        }
        assert BST(t');
        RebalanceBST(t');
        UpdateLeft(Entries(l), map[s := i], k, Info([], []));
        UpdateLeft(Entries(l) + map[s := i], Entries(r), k, Info([], []));
      }
  }

  /** Insertion into an AVL tree yields an AVL tree with correct cached
      heights, at most one level taller. */
  lemma {:induction false} InsertAVL(t: Tree, k: string)
    requires AVL(t)
    ensures AVL(Insert(t, k))
    ensures H(t) <= H(Insert(t, k)) <= H(t) + 1
  {
    match t
    case Empty =>
    case Node(l, s, _, _, r) =>
      if Less(s, k) {
        InsertAVL(r, k);
        RebalanceAVL(t.(right := Insert(r, k)));
      } else if Less(k, s) {
        InsertAVL(l, k);
        RebalanceAVL(t.(left := Insert(l, k)));
      } else {
        RebalanceAVL(t);
      }
  }
}
