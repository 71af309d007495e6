/** The nodes of the stem tree (NoeudDicoSynonymes), the views the proofs use
    (keys, entries, in-order sequence, node count, cached heights), the tree
    invariants, and the read-only descents of DicoSynonymes.cpp: the search
    `auxradicalDansDico`, the getters `auxGetFlexions`/`auxGetNombreSens`, the
    in-place edit done by `auxAjouterFlexion`/`auxSupprimerFlexion`, and
    `parcoursPreOrdre`. */
module StemTree {
  import opened Order

  /** What a node carries besides its key: its inflections (`flexions`), in the
      order they were added, and the ids of the synonym groups it belongs to
      (`appSynonymes`). */
  datatype Info = Info(flexions: seq<string>, groups: seq<int>)

  /** A subtree. `height` is the cached height (`hauteur`) of a node; an absent
      subtree counts as -1 (see `H`). */
  datatype Tree = Empty | Node(left: Tree, stem: string, info: Info, height: nat, right: Tree)

  /** A freshly allocated node: no inflections, no groups, height 0. */
  function Leaf(stem: string): (t: Tree)
    ensures t.Node? && Keys(t) == {stem} && Entries(t) == map[stem := Info([], [])]
    ensures BST(t) && AVL(t) && Size(t) == 1
  {
    Node(Empty, stem, Info([], []), 0, Empty)
  }

  function Max(a: int, b: int): (m: int)
    ensures a <= m && b <= m && (m == a || m == b)
  {
    if a < b then b else a
  }

  /** `hauteur`: the cached height of a node, -1 for a null subtree. */
  function H(t: Tree): (h: int)
    ensures h == -1 <==> t.Empty?
    ensures h >= -1
  {
    if t.Empty? then -1 else t.height
  }

  ghost function Keys(t: Tree): set<string> {
    match t
    case Empty => {}
    case Node(l, k, _, _, r) => Keys(l) + {k} + Keys(r)
  }

  /** The stem of each node with the data it carries. */
  ghost function Entries(t: Tree): (m: map<string, Info>)
    ensures m.Keys == Keys(t)
  {
    match t
    case Empty => map[]
    case Node(l, k, i, _, r) => Entries(l) + map[k := i] + Entries(r)
  }

  ghost function InOrder(t: Tree): seq<string> {
    match t
    case Empty => []
    case Node(l, k, _, _, r) => InOrder(l) + [k] + InOrder(r)
  }

  /** The number of nodes, which `nbRadicaux` counts. */
  function Size(t: Tree): nat {
    match t
    case Empty => 0
    case Node(l, _, _, _, r) => Size(l) + 1 + Size(r)
  }

  /** The true height of a subtree, independent of the cached field. */
  ghost function RealHeight(t: Tree): int {
    match t
    case Empty => -1
    case Node(l, _, _, _, r) => 1 + Max(RealHeight(l), RealHeight(r))
  }

  ghost predicate StrictlyIncreasing(s: seq<string>) {
    forall i, j :: 0 <= i < j < |s| ==> Less(s[i], s[j])
  }

  /** Binary-search-tree order: every key on the left is smaller, every key on
      the right larger, so each stem occurs once. */
  ghost predicate BST(t: Tree) {
    match t
    case Empty => true
    case Node(l, k, _, _, r) =>
      BST(l) && BST(r) &&
      (forall x :: x in Keys(l) ==> Less(x, k)) &&
      (forall x :: x in Keys(r) ==> Less(k, x))
  }

  /** Every cached height is 1 + the larger of its children's. */
  ghost predicate HeightsCached(t: Tree) {
    match t
    case Empty => true
    case Node(l, _, _, h, r) => HeightsCached(l) && HeightsCached(r) && h == 1 + Max(H(l), H(r))
  }

  /** AVL balance on the cached heights. */
  ghost predicate Balanced(t: Tree) {
    match t
    case Empty => true
    case Node(l, _, _, _, r) => Balanced(l) && Balanced(r) && -1 <= H(l) - H(r) <= 1
  }

  ghost predicate AVL(t: Tree) {
    HeightsCached(t) && Balanced(t)
  }

  lemma {:induction false} CachedHeightIsReal(t: Tree)
    requires HeightsCached(t)
    ensures H(t) == RealHeight(t)
  {
    if t.Node? {
      CachedHeightIsReal(t.left);
      CachedHeightIsReal(t.right);
    }
  }

  lemma {:induction false} KeysAreInOrder(t: Tree)
    ensures forall x :: x in Keys(t) <==> x in InOrder(t)
  {
    if t.Node? {
      KeysAreInOrder(t.left);
      KeysAreInOrder(t.right);
    }
  }

  /** The search-tree order holds exactly when the in-order traversal is
      strictly increasing. */
  lemma {:induction false} BSTIffIncreasing(t: Tree)
    ensures BST(t) <==> StrictlyIncreasing(InOrder(t))
  {
    if t.Node? {
      BSTIffIncreasing(t.left);
      BSTIffIncreasing(t.right);
      if BST(t) {
        JoinIncreasing(t);
      }
      if StrictlyIncreasing(InOrder(t)) {
        SplitIncreasing(t);
      }
    }
  }

  /** A search tree over increasing sides lists its keys in increasing order. */
  lemma JoinIncreasing(t: Tree)
    requires t.Node? && BST(t)
    requires StrictlyIncreasing(InOrder(t.left)) && StrictlyIncreasing(InOrder(t.right))
    ensures StrictlyIncreasing(InOrder(t))
  {
    var l, k, r := t.left, t.stem, t.right;
    var L, R := InOrder(l), InOrder(r);
    var s := InOrder(t);
    assert s == L + [k] + R;
    KeysAreInOrder(l);
    KeysAreInOrder(r);
    forall i, j | 0 <= i < j < |s| ensures Less(s[i], s[j]) {
      if j < |L| {
        assert s[i] == L[i] && s[j] == L[j];
      } else if i > |L| {
        assert s[i] == R[i - |L| - 1] && s[j] == R[j - |L| - 1];
      } else if i == |L| {
        assert s[j] == R[j - |L| - 1];
      } else if j == |L| {
        assert s[i] == L[i];
      } else {
        assert s[i] == L[i] && s[j] == R[j - |L| - 1];
        LessTransitive(s[i], k, s[j]);
      }
    }
  }

  /** An increasing in-order listing has increasing sides, smaller keys on
      the left and larger on the right. */
  lemma SplitIncreasing(t: Tree)
    requires t.Node? && StrictlyIncreasing(InOrder(t))
    ensures StrictlyIncreasing(InOrder(t.left)) && StrictlyIncreasing(InOrder(t.right))
    ensures forall x :: x in Keys(t.left) ==> Less(x, t.stem)
    ensures forall x :: x in Keys(t.right) ==> Less(t.stem, x)
  {
    SplitIncreasingSides(t);
    SplitIncreasingKeys(t);
  }

  lemma SplitIncreasingSides(t: Tree)
    requires t.Node? && StrictlyIncreasing(InOrder(t))
    ensures StrictlyIncreasing(InOrder(t.left)) && StrictlyIncreasing(InOrder(t.right))
  {
    assert InOrder(t) == InOrder(t.left) + ([t.stem] + InOrder(t.right));
    IncreasingPrefix(InOrder(t.left), [t.stem] + InOrder(t.right));
    IncreasingSuffix(InOrder(t.left) + [t.stem], InOrder(t.right));
  }

  lemma IncreasingPrefix(a: seq<string>, b: seq<string>)
    requires StrictlyIncreasing(a + b)
    ensures StrictlyIncreasing(a)
  {
    forall i, j | 0 <= i < j < |a| ensures Less(a[i], a[j]) {
      assert (a + b)[i] == a[i] && (a + b)[j] == a[j];
    }
  }

  lemma IncreasingSuffix(a: seq<string>, b: seq<string>)
    requires StrictlyIncreasing(a + b)
    ensures StrictlyIncreasing(b)
  {
    forall i, j | 0 <= i < j < |b| ensures Less(b[i], b[j]) {
      assert (a + b)[|a| + i] == b[i] && (a + b)[|a| + j] == b[j];
    }
  }

  lemma SplitIncreasingKeys(t: Tree)
    requires t.Node? && StrictlyIncreasing(InOrder(t))
    ensures forall x :: x in Keys(t.left) ==> Less(x, t.stem)
    ensures forall x :: x in Keys(t.right) ==> Less(t.stem, x)
  {
    var l, k, r := t.left, t.stem, t.right;
    var L, R := InOrder(l), InOrder(r);
    var s := InOrder(t);
    assert s == L + [k] + R;
    KeysAreInOrder(l);
    KeysAreInOrder(r);
    forall x | x in Keys(l) ensures Less(x, k) {
      var i :| 0 <= i < |L| && L[i] == x;
      assert s[i] == x && s[|L|] == k;
    }
    forall x | x in Keys(r) ensures Less(k, x) {
      var i :| 0 <= i < |R| && R[i] == x;
      assert s[i + |L| + 1] == x && s[|L|] == k;
    }
  }

  /** Two trees with the same in-order traversal are both search trees or neither. */
  lemma SameInOrderBST(t: Tree, u: Tree)
    requires InOrder(t) == InOrder(u) && BST(t)
    ensures BST(u)
  {
    BSTIffIncreasing(t);
    BSTIffIncreasing(u);
  }

  /** In a search tree, keys are distinct: `nbRadicaux` equals the number of stems. */
  lemma {:induction false} SizeIsKeyCount(t: Tree)
    requires BST(t)
    ensures |Keys(t)| == Size(t)
  {
    if t.Node? {
      SizeIsKeyCount(t.left);
      SizeIsKeyCount(t.right);
      var k := t.stem;
      LessIrreflexive(k);
      forall x | x in Keys(t.left) ensures x !in Keys(t.right) {
        if x in Keys(t.right) {
          LessAsymmetric(x, k);
        }
      }
      assert Keys(t.left) !! Keys(t.right);
      assert |Keys(t.left) + Keys(t.right)| == Size(t.left) + Size(t.right);
      assert k !in Keys(t.left) + Keys(t.right);
      assert Keys(t) == (Keys(t.left) + Keys(t.right)) + {k};
    }
  }

  /** In a search tree the root's stem is on neither side and the two sides
      share no stem. */
  lemma DisjointSides(t: Tree)
    requires t.Node? && BST(t)
    ensures t.stem !in Keys(t.left) && t.stem !in Keys(t.right)
    ensures Keys(t.left) !! Keys(t.right)
  {
    LessIrreflexive(t.stem);
    forall x | x in Keys(t.left) ensures x !in Keys(t.right) {
      if x in Keys(t.right) {
        LessAsymmetric(x, t.stem);
      }
    }
  }

  lemma UpdateRight<K, V>(a: map<K, V>, b: map<K, V>, k: K, v: V)
    requires k !in a
    ensures a + b[k := v] == (a + b)[k := v]
  {
  }

  lemma UpdateLeft<K, V>(a: map<K, V>, b: map<K, V>, k: K, v: V)
    requires k !in b
    ensures a[k := v] + b == (a + b)[k := v]
  {
  }

  /** In a search tree, a key below (above) the root is not on the right (left). */
  lemma SidesOfKey(t: Tree, x: string)
    requires t.Node? && BST(t)
    ensures Less(x, t.stem) ==> x !in Keys(t.right) && x != t.stem
    ensures Less(t.stem, x) ==> x !in Keys(t.left) && x != t.stem
  {
    if Less(x, t.stem) {
      LessAsymmetric(x, t.stem);
      LessIrreflexive(x);
    }
    if Less(t.stem, x) {
      LessAsymmetric(t.stem, x);
      LessIrreflexive(x);
    }
  }

  /** `auxradicalDansDico`: binary search for a stem. */
  function Contains(t: Tree, k: string): (found: bool)
    ensures found ==> k in Keys(t)
  {
    if t.Empty? then false
    else if k == t.stem then true
    else if Less(k, t.stem) then Contains(t.left, k)
    else Contains(t.right, k)
  }

  /** The search finds a stem exactly when it is in the tree. */
  lemma {:induction false} ContainsIffKey(t: Tree, k: string)
    requires BST(t)
    ensures Contains(t, k) <==> k in Keys(t)
  {
    if t.Node? && k != t.stem {
      SidesOfKey(t, k);
      if Less(k, t.stem) {
        ContainsIffKey(t.left, k);
      } else {
        LessTotal(k, t.stem);
        ContainsIffKey(t.right, k);
      }
    }
  }

  /** The descent of `auxGetFlexions` and `auxGetNombreSens`: the node holding `k`. */
  function Locate(t: Tree, k: string): (n: Tree)
    ensures n.Node? ==> n.stem == k && k in Keys(t)
  {
    if t.Empty? then Empty
    else if t.stem == k then t
    else if Less(t.stem, k) then Locate(t.right, k)
    else Locate(t.left, k)
  }

  /** In a search tree the descent reaches the node of a present stem, and
      returns what the tree records for it. */
  lemma {:induction false} LocateFinds(t: Tree, k: string)
    requires BST(t) && k in Keys(t)
    ensures Locate(t, k).Node? && Locate(t, k).stem == k
    ensures Locate(t, k).info == Entries(t)[k]
    ensures Keys(Locate(t, k)) <= Keys(t) && BST(Locate(t, k))
  {
    if t.stem != k {
      LessTotal(k, t.stem);
      SidesOfKey(t, k);
      if Less(t.stem, k) {
        LocateFinds(t.right, k);
      } else {
        LocateFinds(t.left, k);
      }
    } else {
      DisjointSides(t);
    }
  }

  /** The descent of `auxAjouterFlexion` and `auxSupprimerFlexion`: replaces the
      data of the node holding `k`, touching no link and no height. */
  function SetInfo(t: Tree, k: string, i: Info): (u: Tree)
    ensures Keys(u) == Keys(t) && InOrder(u) == InOrder(t) && Size(u) == Size(t)
    ensures H(u) == H(t)
    ensures HeightsCached(u) == HeightsCached(t) && Balanced(u) == Balanced(t)
    ensures BST(u) == BST(t)
  {
    match t
    case Empty => Empty
    case Node(l, s, j, h, r) =>
      if s == k then Node(l, s, i, h, r)
      else if Less(s, k) then Node(l, s, j, h, SetInfo(r, k, i))
      else Node(SetInfo(l, k, i), s, j, h, r)
  }

  /** The edit reaches the node of `k` and no other. */
  lemma {:induction false} SetInfoEntries(t: Tree, k: string, i: Info)
    requires BST(t) && k in Keys(t)
    ensures Entries(SetInfo(t, k, i)) == Entries(t)[k := i]
  {
    var l, s, r := t.left, t.stem, t.right;
    SidesOfKey(t, k);
    LessTotal(k, s);
    var el, er := Entries(l), Entries(r);
    if s == k {
      DisjointSides(t);
      UpdateLeft(el + map[k := t.info], er, k, i);
      UpdateRight(el, map[k := t.info], k, i);
    } else if Less(s, k) {
      SetInfoEntries(r, k, i);
      UpdateRight(el + map[s := t.info], er, k, i);
    } else {
      SetInfoEntries(l, k, i);
      UpdateLeft(el, map[s := t.info], k, i);
      UpdateLeft(el + map[s := t.info], er, k, i);
    }
  }

  /** `parcoursPreOrdre`: every node, root first, then the left subtree, then
      the right one. */
  function PreOrder(t: Tree): (s: seq<Tree>)
    ensures |s| == Size(t)
    ensures forall n :: n in s ==> n.Node?
  {
    match t
    case Empty => []
    case Node(l, _, _, _, r) => [t] + PreOrder(l) + PreOrder(r)
  }

  /** Every node of the snapshot is a node of the tree, carrying the data the
      tree records for its stem. */
  lemma {:induction false} PreOrderNodes(t: Tree)
    requires BST(t)
    ensures forall n :: n in PreOrder(t) ==> n.stem in Keys(t) && n.info == Entries(t)[n.stem]
  {
    if t.Node? {
      var l, r := t.left, t.right;
      PreOrderNodes(l);
      PreOrderNodes(r);
      DisjointSides(t);
      var p, pl, pr := PreOrder(t), PreOrder(l), PreOrder(r);
      assert p == [t] + pl + pr;
      forall n | n in p ensures n.stem in Keys(t) && n.info == Entries(t)[n.stem] {
        if n in pl {
          assert n.stem in Keys(l);
          assert n.stem !in Entries(r) && n.stem != t.stem;
        } else if n in pr {
          assert n.stem in Keys(r);
        } else {
          assert n == t;
        }
      }
    }
  }

  /** Every stem of the tree has its node in the snapshot. */
  lemma {:induction false} PreOrderCovers(t: Tree, k: string)
    requires k in Keys(t)
    ensures exists n :: n in PreOrder(t) && n.stem == k
  {
    var p := PreOrder(t);
    assert p == [t] + PreOrder(t.left) + PreOrder(t.right);
    if k == t.stem {
      assert p[0] == t;
    } else if k in Keys(t.left) {
      PreOrderCovers(t.left, k);
      var n :| n in PreOrder(t.left) && n.stem == k;
      assert n in p;
    } else {
      PreOrderCovers(t.right, k);
      var n :| n in PreOrder(t.right) && n.stem == k;
      assert n in p;
    }
  }
}
