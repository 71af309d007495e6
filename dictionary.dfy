/** The dictionary object `DicoSynonymes` (DicoSynonymes.cpp): the root of the
    stem tree (`racine`), the stem counter (`nbRadicaux`) and the table of
    synonym groups (`groupesSynonymes`), with the public operations on them.

    A group holds node pointers in the source; here it holds the members'
    stems. The two agree while no stem is removed: a removal leaves the groups
    as they were, so a removed stem stays listed (its node is gone), and a
    removal from a node with two children gives that node the successor's stem
    while a group still lists the removed one. */
module Synonyms {
  import opened Order
  import opened StemTree
  import opened Insertion
  import opened Deletion
  import opened EditDistance
  import opened Lists
  import opened Unsigned

  /** The `logic_error`s the public operations throw. */
  datatype Error =
    | DuplicateStem
    | StemNotFound
    | SynonymNotFound
    | EmptyTree
    | InflectionExists
    | InflectionNotFound
    | InvalidGroup
    | SynonymInGroup
    | NotInGroup
    | NoMatch

  datatype Outcome = Done | Fail(error: Error)

  datatype Result<T> = Ok(value: T) | Err(error: Error)

  /** Every group id a stem records names a group of a table of `n` groups. */
  ghost predicate IdsInRange(m: map<string, Info>, n: nat) {
    forall k :: k in m ==> forall j :: 0 <= j < |m[k].groups| ==> 0 <= m[k].groups[j] < n
  }

  predicate IdsBelow(ids: seq<int>, n: nat) {
    forall j :: 0 <= j < |ids| ==> 0 <= ids[j] < n
  }

  lemma IdsUpdate(m: map<string, Info>, n: nat, n': nat, k: string, i: Info)
    requires IdsInRange(m, n) && n <= n' && IdsBelow(i.groups, n')
    ensures IdsInRange(m[k := i], n')
  {
  }

  lemma IdsGrow(m: map<string, Info>, n: nat, n': nat)
    requires IdsInRange(m, n) && n <= n'
    ensures IdsInRange(m, n')
  {
  }

  lemma IdsOf(m: map<string, Info>, n: nat, k: string)
    requires IdsInRange(m, n) && k in m
    ensures IdsBelow(m[k].groups, n)
  {
  }

  lemma JoinOnceBelow(ids: seq<int>, id: int, n: nat)
    requires IdsBelow(ids, n) && 0 <= id < n
    ensures IdsBelow(JoinOnce(ids, id), n) && IdsBelow(ids + [id], n)
  {
  }

  lemma SuffixBelow(ids: seq<int>, k: nat, n: nat)
    requires IdsBelow(ids, n) && k <= |ids|
    ensures IdsBelow(ids[k..], n)
  {
  }

  /** Whether `stem` is listed in some group. */
  ghost predicate InSomeGroup(groups: seq<seq<string>>, stem: string) {
    exists i :: 0 <= i < |groups| && stem in groups[i]
  }

  lemma InSomeGroupStep(groups: seq<seq<string>>, i: int, stem: string)
    requires 0 <= i < |groups|
    ensures InSomeGroup(groups[..i + 1], stem) <==> InSomeGroup(groups[..i], stem) || stem in groups[i]
  {
    if stem in groups[i] {
      assert groups[..i + 1][i] == groups[i];
    }
    if InSomeGroup(groups[..i], stem) {
      var p :| 0 <= p < i && stem in groups[..i][p];
      assert groups[..i + 1][p] == groups[..i][p];
    }
  }

  /** The element-by-element copy of a list into a fresh vector
      (`push_back` in a range-for), as `getFlexions` and `getSens` do it. */
  method CopyList(source: seq<string>) returns (r: seq<string>)
    ensures r == source
  {
    r := [];
    for i := 0 to |source|
      invariant r == source[..i]
    {
      r := r + [source[i]];
    }
  }

  /** The group a stem's entry at `position` names in `getSens` and
      `getSynonymes`: found by looking for the stem among the members of every
      group; 0 when the stem is in no group. */
  ghost function ChosenGroup(groups: seq<seq<string>>, m: map<string, Info>, stem: string, position: int): int
    requires InSomeGroup(groups, stem) ==> stem in m && 0 <= position < |m[stem].groups|
  {
    if InSomeGroup(groups, stem) then m[stem].groups[position] else 0
  }

  /** The group table after `ajouterSynonyme` with an existing group `g` that
      does not yet list the synonym: the stem is appended if missing, then the
      synonym. */
  function ExtendGroup(group: seq<string>, stem: string, synonym: string): (r: seq<string>)
    ensures stem in r && synonym in r && r[|r| - 1] == synonym
    ensures |group| < |r| <= |group| + 2 && r[..|group|] == group
  {
    (if stem in group then group else group + [stem]) + [synonym]
  }

  /** A stem's membership list after it joins group `id`: the id is appended
      only if the list lacks it. */
  function JoinOnce(ids: seq<int>, id: int): (r: seq<int>)
    ensures id in r && |ids| <= |r| && r[..|ids|] == ids
    ensures id in ids ==> r == ids
    ensures id !in ids ==> r == ids + [id]
  {
    if id in ids then ids else ids + [id]
  }

  /** The position of the last maximal score: where `rechercherRadical` ends up
      after finding the largest score and walking the scores for the last
      position holding it. */
  ghost predicate IsLastMaximum(s: seq<real>, p: int) {
    0 <= p < |s| &&
    (forall j :: 0 <= j < |s| ==> s[j] <= s[p]) &&
    (forall j :: p < j < |s| ==> s[j] < s[p])
  }

  /** There is at most one such position. */
  lemma LastMaximumUnique(s: seq<real>, p: int, q: int)
    requires IsLastMaximum(s, p) && IsLastMaximum(s, q)
    ensures p == q
  {
    assert s[p] == s[q];
  }

  /** The similarity of each node's stem to `word`, in snapshot order. */
  ghost function Scores(nodes: seq<Tree>, word: string): (s: seq<real>)
    requires forall n :: n in nodes ==> n.Node?
    ensures |s| == |nodes|
    ensures forall j :: 0 <= j < |s| ==> s[j] == Similarity(nodes[j].stem, word)
  {
    seq(|nodes|, j requires 0 <= j < |nodes| => Similarity(nodes[j].stem, word))
  }

  /** The map a removal leaves records only group ids the tree had. */
  lemma AfterRemovalIds(t: Tree, k: string, n: nat)
    requires BST(t) && k in Keys(t) && IdsInRange(Entries(t), n)
    ensures IdsInRange(AfterRemoval(t, k), n)
  {
    LocateFinds(t, k);
  }

  /** The data after `ajouterSynonyme` has made sure the synonym is a stem:
      an absent one gets a fresh entry with no inflections and no groups. */
  ghost function WithStem(m: map<string, Info>, k: string): (r: map<string, Info>)
    ensures k in r && r.Keys == m.Keys + {k}
    ensures k in m ==> r == m
    ensures k !in m ==> r[k] == Info([], [])
  {
    if k in m then m else m[k := Info([], [])]
  }

  /** The data after the stem joins group `id` (once) and the synonym records
      `id` (always, so twice when the stem is its own synonym). */
  ghost function Linked(m: map<string, Info>, stem: string, synonym: string, id: int): (r: map<string, Info>)
    requires stem in m && synonym in m
    ensures r.Keys == m.Keys
    ensures id in r[stem].groups && id in r[synonym].groups
    ensures forall k :: k in m && k != stem && k != synonym ==> r[k] == m[k]
  {
    var m1 := m[stem := m[stem].(groups := JoinOnce(m[stem].groups, id))];
    m1[synonym := m1[synonym].(groups := m1[synonym].groups + [id])]
  }

  /** The answer of `getSens` for a group: its front member, or the member
      after it when the front is the stem itself. */
  function FirstSense(group: seq<string>, stem: string): (s: string)
    requires |group| > 0 && (group[0] == stem ==> |group| > 1)
    ensures s in group
  {
    if group[0] == stem then group[1] else group[0]
  }

  /** Unless the stem fills both front places, that answer is the first of
      the synonyms `getSynonymes` lists for the same group. */
  lemma FirstSenseIsFirstSynonym(group: seq<string>, stem: string)
    requires |group| > 1 && !(group[0] == stem && group[1] == stem)
    ensures |Without(group, stem)| > 0 && FirstSense(group, stem) == Without(group, stem)[0]
  {
    if group[0] == stem {
      WithoutDropsFront(group, stem);
      WithoutKeepsFront(group[1..], stem);
    } else {
      WithoutKeepsFront(group, stem);
    }
  }

  class Dictionary {
    var root: Tree
    var count: int
    var groups: seq<seq<string>>

    /** The search order holds, `nbRadicaux` counts the nodes, and every
        recorded group id names a group. */
    ghost predicate Valid()
      reads this
    {
      BST(root) && count == Size(root) && IdsInRange(Entries(root), |groups|)
    }

    /** Every member of every group is still a stem of the tree: the pointer
        the source keeps for it still leads to a live node. */
    ghost predicate MembersPresent()
      reads this
    {
      forall i, x :: 0 <= i < |groups| && x in groups[i] ==> x in Keys(root)
    }

    /** The empty dictionary. */
    constructor()
      ensures Valid()
      ensures root == Empty && count == 0 && groups == []
    {
      root := Empty;
      count := 0;
      groups := [];
    }

    /** `estVide` */
    method IsEmpty() returns (b: bool)
      requires Valid()
      ensures b <==> Keys(root) == {}
    {
      b := count == 0;
    }

    /** `nombreRadicaux`: the number of stems. */
    method StemCount() returns (n: int)
      requires Valid()
      ensures n == |Keys(root)|
    {
      SizeIsKeyCount(root);
      n := count;
    }

    /** `radicalDansDico` */
    method HasStem(stem: string) returns (b: bool)
      requires Valid()
      ensures b <==> stem in Keys(root)
    {
      ContainsIffKey(root, stem);
      b := Contains(root, stem);
    }

    /** `ajouterRadical`: refuses a stem already present; otherwise the stem
        gets a node of its own with no inflections and no groups, the count
        rises by one, the other stems keep their data, and an AVL tree stays
        one. */
    method AddStem(stem: string) returns (o: Outcome)
      requires Valid()
      modifies this
      ensures Valid() && groups == old(groups)
      ensures stem in old(Keys(root)) ==> o == Fail(DuplicateStem) && root == old(root) && count == old(count)
      ensures stem !in old(Keys(root)) ==>
                o == Done && count == old(count) + 1 &&
                Keys(root) == old(Keys(root)) + {stem} &&
                Entries(root) == old(Entries(root))[stem := Info([], [])]
      ensures old(AVL(root)) ==> AVL(root)
    {
      ContainsIffKey(root, stem);
      if Contains(root, stem) {
        return Fail(DuplicateStem);
      }
      InsertBST(root, stem);
      if AVL(root) {
        InsertAVL(root, stem);
      }
      root := Insert(root, stem);
      count := count + 1;
      o := Done;
    }

    /** `ajouterFlexion`: refuses an absent stem and an inflection the stem
        already has; otherwise appends the inflection to the stem's list and
        changes nothing else. */
    method AddInflection(stem: string, inflection: string) returns (o: Outcome)
      requires Valid()
      modifies this
      ensures Valid() && groups == old(groups) && count == old(count)
      ensures Keys(root) == old(Keys(root)) && AVL(root) == old(AVL(root))
      ensures stem !in old(Keys(root)) ==> o == Fail(StemNotFound) && root == old(root)
      ensures stem in old(Keys(root)) && inflection in old(Entries(root))[stem].flexions ==>
                o == Fail(InflectionExists) && root == old(root)
      ensures stem in old(Keys(root)) && inflection !in old(Entries(root))[stem].flexions ==>
                o == Done &&
                Entries(root) == old(Entries(root))[stem := old(Entries(root))[stem].(
                  flexions := old(Entries(root))[stem].flexions + [inflection])]
    {
      ContainsIffKey(root, stem);
      if !Contains(root, stem) {
        return Fail(StemNotFound);
      }
      LocateFinds(root, stem);
      var info := Locate(root, stem).info;
      var present := Find(info.flexions, inflection);
      if present {
        return Fail(InflectionExists);
      }
      var info' := info.(flexions := info.flexions + [inflection]);
      SetInfoEntries(root, stem, info');
      root := SetInfo(root, stem, info');
      o := Done;
    }

    /** `supprimerFlexion`: refuses an empty tree, an absent stem and an
        inflection the stem lacks; otherwise takes the inflection out of the
        stem's list and changes nothing else. */
    method RemoveInflection(stem: string, inflection: string) returns (o: Outcome)
      requires Valid()
      modifies this
      ensures Valid() && groups == old(groups) && count == old(count)
      ensures Keys(root) == old(Keys(root)) && AVL(root) == old(AVL(root))
      ensures old(Keys(root)) == {} ==> o == Fail(EmptyTree) && root == old(root)
      ensures old(Keys(root)) != {} && stem !in old(Keys(root)) ==> o == Fail(StemNotFound) && root == old(root)
      ensures stem in old(Keys(root)) && inflection !in old(Entries(root))[stem].flexions ==>
                o == Fail(InflectionNotFound) && root == old(root)
      ensures stem in old(Keys(root)) && inflection in old(Entries(root))[stem].flexions ==>
                o == Done &&
                Entries(root) == old(Entries(root))[stem := old(Entries(root))[stem].(
                  flexions := Without(old(Entries(root))[stem].flexions, inflection))]
    {
      if count == 0 {
        return Fail(EmptyTree);
      }
      ContainsIffKey(root, stem);
      if !Contains(root, stem) {
        return Fail(StemNotFound);
      }
      LocateFinds(root, stem);
      var info := Locate(root, stem).info;
      var present := Find(info.flexions, inflection);
      if !present {
        return Fail(InflectionNotFound);
      }
      var info' := info.(flexions := Without(info.flexions, inflection));
      SetInfoEntries(root, stem, info');
      root := SetInfo(root, stem, info');
      o := Done;
    }

    /** `supprimerRadical`: refuses an empty tree and an absent stem;
        otherwise the stem disappears, the count drops by one, the other stems
        keep their order, and the data is what `AfterRemoval` says. The group
        table is left as it was. */
    method RemoveStem(stem: string) returns (o: Outcome)
      requires Valid()
      modifies this
      ensures Valid() && groups == old(groups)
      ensures old(Keys(root)) == {} ==> o == Fail(EmptyTree) && root == old(root) && count == old(count)
      ensures old(Keys(root)) != {} && stem !in old(Keys(root)) ==>
                o == Fail(StemNotFound) && root == old(root) && count == old(count)
      ensures stem in old(Keys(root)) ==>
                o == Done && count == old(count) - 1 &&
                Keys(root) == old(Keys(root)) - {stem} &&
                Entries(root) == AfterRemoval(old(root), stem)
    {
      if count == 0 {
        return Fail(EmptyTree);
      }
      ContainsIffKey(root, stem);
      if !Contains(root, stem) {
        return Fail(StemNotFound);
      }
      RemoveBST(root, stem);
      AfterRemovalIds(root, stem, |groups|);
      root := Remove(root, stem);
      count := count - 1;
      o := Done;
    }

    /** `getNombreSens`: the length of the stem's membership list. The
        descent dereferences the node it reaches, so the stem must be there. */
    method SenseCount(stem: string) returns (n: int)
      requires Valid() && stem in Keys(root)
      ensures n == |Entries(root)[stem].groups|
    {
      LocateFinds(root, stem);
      n := |Locate(root, stem).info.groups|;
    }

    /** `getFlexions`: a copy of the stem's inflections, in order. */
    method Inflections(stem: string) returns (fs: seq<string>)
      requires Valid() && stem in Keys(root)
      ensures fs == Entries(root)[stem].flexions
    {
      LocateFinds(root, stem);
      fs := CopyList(Locate(root, stem).info.flexions);
    }

    /** `ajouterSynonyme`. A group number other than -1 that the unsigned test
        rejects is refused first, then an absent stem. An absent synonym is
        then added as a stem of its own, and stays even if the call is refused
        afterwards. With -1 a new group [stem, synonym] is opened at the end of
        the table; otherwise a group already listing the synonym is refused,
        and the stem (if missing) then the synonym are appended to it. The
        stem records the group id once, the synonym always. */
    method AddSynonym(stem: string, synonym: string, g: int) returns (r: Result<int>)
      requires Valid() && IsInt32(g) && |groups| < 0x7fff_ffff
      requires g != -1 && |groups| == 0 ==> stem !in Keys(root)
      modifies this
      ensures Valid()
      ensures old(AVL(root)) ==> AVL(root)
      ensures old(MembersPresent()) ==> MembersPresent()
      ensures g != -1 && 0 < old(|groups|) && !(0 <= g < old(|groups|)) ==>
                r == Err(InvalidGroup) && root == old(root) && count == old(count) && groups == old(groups)
      ensures (g == -1 || 0 <= g < old(|groups|) || old(|groups|) == 0) && stem !in old(Keys(root)) ==>
                r == Err(StemNotFound) && root == old(root) && count == old(count) && groups == old(groups)
      ensures (g == -1 || 0 <= g < old(|groups|)) && stem in old(Keys(root)) ==>
                Keys(root) == old(Keys(root)) + {synonym} &&
                count == old(count) + (if synonym in old(Keys(root)) then 0 else 1)
      ensures 0 <= g < old(|groups|) && stem in old(Keys(root)) && synonym in old(groups)[g] ==>
                r == Err(SynonymInGroup) && groups == old(groups) &&
                Entries(root) == WithStem(old(Entries(root)), synonym)
      ensures g == -1 && stem in old(Keys(root)) ==>
                r == Ok(old(|groups|)) && groups == old(groups) + [[stem, synonym]] &&
                Entries(root) == Linked(WithStem(old(Entries(root)), synonym), stem, synonym, old(|groups|))
      ensures 0 <= g < old(|groups|) && stem in old(Keys(root)) && synonym !in old(groups)[g] ==>
                r == Ok(g) && groups == old(groups)[g := ExtendGroup(old(groups)[g], stem, synonym)] &&
                Entries(root) == Linked(WithStem(old(Entries(root)), synonym), stem, synonym, g)
      ensures r.Ok? ==>
                0 <= r.value < |groups| && stem in groups[r.value] && synonym in groups[r.value] &&
                r.value in Entries(root)[stem].groups && r.value in Entries(root)[synonym].groups
    {
      if |groups| > 0 {
        ExceedsIffOutOfRange(g, |groups|);
      } else {
        EmptyTableAcceptsAll(g);
      }
      if g != -1 && ExceedsLastIndex(g, |groups|) {
        return Err(InvalidGroup);
      }
      ContainsIffKey(root, stem);
      if !Contains(root, stem) {
        return Err(StemNotFound);
      }
      EnsureStem(synonym);
      if g == -1 {
        var id := OpenGroup(stem, synonym);
        r := Ok(id);
      } else {
        r := JoinExistingGroup(stem, synonym, g);
      }
    }

    /** `ajouterSynonyme` with -1: a new group [stem, synonym] at the end of
        the table, whose id both stems record. */
    method OpenGroup(stem: string, synonym: string) returns (id: int)
      requires Valid() && stem in Keys(root) && synonym in Keys(root)
      modifies this
      ensures Valid() && count == old(count)
      ensures Keys(root) == old(Keys(root)) && AVL(root) == old(AVL(root))
      ensures old(MembersPresent()) ==> MembersPresent()
      ensures id == old(|groups|) && groups == old(groups) + [[stem, synonym]]
      ensures Entries(root) == Linked(old(Entries(root)), stem, synonym, id)
    {
      IdsGrow(Entries(root), |groups|, |groups| + 1);
      groups := groups + [[stem, synonym]];
      id := |groups| - 1;
      JoinGroup(stem, synonym, id);
    }

    /** `ajouterSynonyme` with an existing group `g`: refused when the group
        lists the synonym; otherwise the stem (if missing) and the synonym
        are appended to it, and both stems record `g`. */
    method JoinExistingGroup(stem: string, synonym: string, g: int) returns (r: Result<int>)
      requires Valid() && stem in Keys(root) && synonym in Keys(root) && 0 <= g < |groups|
      modifies this
      ensures Valid() && count == old(count)
      ensures Keys(root) == old(Keys(root)) && AVL(root) == old(AVL(root))
      ensures old(MembersPresent()) ==> MembersPresent()
      ensures synonym in old(groups)[g] ==>
                r == Err(SynonymInGroup) && root == old(root) && groups == old(groups)
      ensures synonym !in old(groups)[g] ==>
                r == Ok(g) && groups == old(groups)[g := ExtendGroup(old(groups)[g], stem, synonym)] &&
                Entries(root) == Linked(old(Entries(root)), stem, synonym, g)
    {
      var listed := Find(groups[g], synonym);
      if listed {
        return Err(SynonymInGroup);
      }
      groups := groups[g := ExtendGroup(groups[g], stem, synonym)];
      JoinGroup(stem, synonym, g);
      r := Ok(g);
    }

    /** The step of `ajouterSynonyme` that adds an absent synonym as a stem
        through `ajouterRadical`. */
    method EnsureStem(k: string)
      requires Valid()
      modifies this
      ensures Valid() && groups == old(groups)
      ensures Keys(root) == old(Keys(root)) + {k}
      ensures count == old(count) + (if k in old(Keys(root)) then 0 else 1)
      ensures Entries(root) == WithStem(old(Entries(root)), k)
      ensures old(AVL(root)) ==> AVL(root)
      ensures old(MembersPresent()) ==> MembersPresent()
    {
      ContainsIffKey(root, k);
      if !Contains(root, k) {
        InsertBST(root, k);
        if AVL(root) {
          InsertAVL(root, k);
        }
        IdsUpdate(Entries(root), |groups|, |groups|, k, Info([], []));
        root := Insert(root, k);
        count := count + 1;
      }
    }

    /** The end of `ajouterSynonyme`: the stem's membership list gains `id`
        unless it already has it, then the synonym's gains it. */
    method JoinGroup(stem: string, synonym: string, id: int)
      requires Valid() && 0 <= id < |groups|
      requires stem in Keys(root) && synonym in Keys(root)
      modifies this
      ensures Valid() && groups == old(groups) && count == old(count)
      ensures Keys(root) == old(Keys(root)) && AVL(root) == old(AVL(root))
      ensures Entries(root) == Linked(old(Entries(root)), stem, synonym, id)
    {
      LocateFinds(root, stem);
      var info := Locate(root, stem).info;
      var present := Find(info.groups, id);
      if !present {
        info := info.(groups := info.groups + [id]);
      }
      IdsOf(Entries(root), |groups|, stem);
      JoinOnceBelow(info.groups, id, |groups|);
      Store(stem, info);
      LocateFinds(root, synonym);
      var sinfo := Locate(root, synonym).info;
      IdsOf(Entries(root), |groups|, synonym);
      JoinOnceBelow(sinfo.groups, id, |groups|);
      Store(synonym, sinfo.(groups := sinfo.groups + [id]));
    }

    /** Writes a stem's data back into its node; the shape of the tree does
        not change. */
    method Store(k: string, info: Info)
      requires Valid() && k in Keys(root) && IdsBelow(info.groups, |groups|)
      modifies this
      ensures Valid() && groups == old(groups) && count == old(count)
      ensures Keys(root) == old(Keys(root)) && AVL(root) == old(AVL(root))
      ensures Entries(root) == old(Entries(root))[k := info]
    {
      IdsUpdate(Entries(root), |groups|, |groups|, k, info);
      SetInfoEntries(root, k, info);
      root := SetInfo(root, k, info);
    }

    /** `supprimerSynonyme`. Refuses an absent stem, an absent synonym, a group
        number the unsigned test rejects (-1 included) and a group that does
        not list the stem. Otherwise every occurrence of the synonym leaves
        the group, and the synonym's membership list loses as many FRONT
        entries as the erase loop finds matches. */
    method RemoveSynonym(stem: string, synonym: string, g: int) returns (o: Outcome)
      requires Valid() && IsInt32(g) && |groups| < 0x8000_0000
      requires stem in Keys(root) && synonym in Keys(root) ==> 0 < |groups|
      requires stem in Keys(root) && synonym in Keys(root) && 0 <= g < |groups| && stem in groups[g] ==>
                 synonym in groups[g]
      modifies this
      ensures Valid() && count == old(count)
      ensures Keys(root) == old(Keys(root)) && AVL(root) == old(AVL(root))
      ensures old(MembersPresent()) ==> MembersPresent()
      ensures stem !in old(Keys(root)) ==> o == Fail(StemNotFound) && root == old(root) && groups == old(groups)
      ensures stem in old(Keys(root)) && synonym !in old(Keys(root)) ==>
                o == Fail(SynonymNotFound) && root == old(root) && groups == old(groups)
      ensures stem in old(Keys(root)) && synonym in old(Keys(root)) && !(0 <= g < old(|groups|)) ==>
                o == Fail(InvalidGroup) && root == old(root) && groups == old(groups)
      ensures stem in old(Keys(root)) && synonym in old(Keys(root)) && 0 <= g < old(|groups|) &&
              stem !in old(groups)[g] ==>
                o == Fail(NotInGroup) && root == old(root) && groups == old(groups)
      ensures stem in old(Keys(root)) && synonym in old(Keys(root)) && 0 <= g < old(|groups|) &&
              stem in old(groups)[g] ==>
                o == Done &&
                groups == old(groups)[g := Without(old(groups)[g], synonym)] &&
                Entries(root) == old(Entries(root))[synonym := old(Entries(root))[synonym].(
                  groups := old(Entries(root))[synonym].groups[Hits(old(Entries(root))[synonym].groups, g, 0)..])]
      ensures o == Done ==> 0 <= g < |groups| && synonym !in groups[g]
    {
      ContainsIffKey(root, stem);
      if !Contains(root, stem) {
        return Fail(StemNotFound);
      }
      ContainsIffKey(root, synonym);
      if !Contains(root, synonym) {
        return Fail(SynonymNotFound);
      }
      ExceedsIffOutOfRange(g, |groups|);
      if ExceedsLastIndex(g, |groups|) {
        return Fail(InvalidGroup);
      }
      var listed := Find(groups[g], stem);
      if !listed {
        return Fail(NotInGroup);
      }
      groups := groups[g := Without(groups[g], synonym)];
      LocateFinds(root, synonym);
      var info := Locate(root, synonym).info;
      var kept := EraseGroupId(info.groups, g);
      IdsOf(Entries(root), |groups|, synonym);
      SuffixBelow(info.groups, Hits(info.groups, g, 0), |groups|);
      Store(synonym, info.(groups := kept));
      o := Done;
    }

    /** `adresse->appSynonymes[position]`: entry `position` of a present
        stem's membership list, read through its node. */
    method GroupIdAt(stem: string, position: int) returns (g: int)
      requires Valid() && stem in Keys(root) && 0 <= position < |Entries(root)[stem].groups|
      ensures g == Entries(root)[stem].groups[position]
    {
      LocateFinds(root, stem);
      g := Locate(root, stem).info.groups[position];
    }

    /** The inner loop of the group search: a match in `group` reads entry
        `position` of the stem's membership list, and the last match wins. */
    method ScanGroup(group: seq<string>, stem: string, position: int, c0: int) returns (c: int)
      requires Valid()
      requires stem in group ==> stem in Keys(root) && 0 <= position < |Entries(root)[stem].groups|
      ensures c == (if stem in group then Entries(root)[stem].groups[position] else c0)
    {
      c := c0;
      for j := 0 to |group|
        invariant stem in group[..j] ==> stem in group
        invariant c == (if stem in group[..j] then Entries(root)[stem].groups[position] else c0)
      {
        assert group[..j + 1] == group[..j] + [group[j]];
        if group[j] == stem {
          c := GroupIdAt(stem, position);
        }
      }
      assert group[..|group|] == group;
    }

    /** The group search shared by `getSens` and `getSynonymes`: every member
        of every group is compared with the stem, and each match reads entry
        `position` of the stem's membership list. */
    method SelectGroup(stem: string, position: int) returns (c: int)
      requires Valid()
      requires InSomeGroup(groups, stem) ==> stem in Keys(root) && 0 <= position < |Entries(root)[stem].groups|
      ensures c == ChosenGroup(groups, Entries(root), stem, position)
      ensures InSomeGroup(groups, stem) || |groups| > 0 ==> 0 <= c < |groups|
    {
      ghost var chosen := ChosenGroup(groups, Entries(root), stem, position);
      c := 0;
      for i := 0 to |groups|
        invariant c == (if InSomeGroup(groups[..i], stem) then chosen else 0)
      {
        InSomeGroupStep(groups, i, stem);
        c := ScanGroup(groups[i], stem, position, c);
      }
      assert groups[..|groups|] == groups;
      if InSomeGroup(groups, stem) {
        IdsOf(Entries(root), |groups|, stem);
        assert Entries(root)[stem].groups[position] in Entries(root)[stem].groups;
      }
    }

    /** `getSens`: the first synonym of the chosen group. */
    method Sense(stem: string, position: int) returns (s: string)
      requires Valid() && |groups| > 0
      requires InSomeGroup(groups, stem) ==> stem in Keys(root) && 0 <= position < |Entries(root)[stem].groups|
      requires var c := ChosenGroup(groups, Entries(root), stem, position);
                 0 <= c < |groups| && |groups[c]| > 0 && (groups[c][0] == stem ==> |groups[c]| > 1)
      ensures var c := ChosenGroup(groups, Entries(root), stem, position);
                s == FirstSense(groups[c], stem) && s in groups[c]
    {
      var c := SelectGroup(stem, position);
      var members := CopyList(groups[c]);
      if members[0] == stem {
        s := members[1];
      } else {
        s := members[0];
      }
    }

    /** `getSynonymes`: the chosen group's members other than the stem, in
        group order. */
    method Synonyms(stem: string, position: int) returns (r: seq<string>)
      requires Valid() && |groups| > 0
      requires InSomeGroup(groups, stem) ==> stem in Keys(root) && 0 <= position < |Entries(root)[stem].groups|
      ensures var c := ChosenGroup(groups, Entries(root), stem, position);
                0 <= c < |groups| && r == Without(groups[c], stem)
    {
      var c := SelectGroup(stem, position);
      var group := groups[c];
      r := [];
      for i := 0 to |group|
        invariant r == Without(group[..i], stem)
      {
        assert group[..i + 1][..i] == group[..i];
        if group[i] != stem {
          r := r + [group[i]];
        }
      }
      assert group[..|group|] == group;
    }

    /** `rechercherRadical`: refuses an empty tree; otherwise scores every
        node of a pre-order snapshot against the word, takes the last node
        with the highest score, and answers its stem when the word is one of
        its inflections. */
    method ResolveStem(word: string) returns (r: Result<string>)
      requires Valid()
      ensures Keys(root) == {} <==> r == Err(EmptyTree)
      ensures Keys(root) != {} ==>
                exists p :: IsLastMaximum(Scores(PreOrder(root), word), p) &&
                  r == (if word in PreOrder(root)[p].info.flexions then Ok(PreOrder(root)[p].stem) else Err(NoMatch))
      ensures r.Ok? ==> r.value in Keys(root) && word in Entries(root)[r.value].flexions
    {
      SizeIsKeyCount(root);
      if count == 0 {
        return Err(EmptyTree);
      }
      var nodes := PreOrder(root);
      var scores := ScoreAll(nodes, word);
      var pos := LastMaximum(scores);
      var node := nodes[pos];
      var found := Find(node.info.flexions, word);
      PreOrderNodes(root);
      if found {
        r := Ok(node.stem);
      } else {
        r := Err(NoMatch);
      }
    }

    /** The scoring loop of `rechercherRadical`. */
    static method ScoreAll(nodes: seq<Tree>, word: string) returns (scores: seq<real>)
      requires forall n :: n in nodes ==> n.Node?
      ensures scores == Scores(nodes, word)
    {
      ghost var expected := Scores(nodes, word);
      scores := [];
      for i := 0 to |nodes|
        invariant scores == expected[..i]
      {
        var s := Similitude(nodes[i].stem, word);
        scores := scores + [s];
      }
      assert expected[..|nodes|] == expected;
    }

    /** `std::max_element`, then the walk that keeps the last position holding
        the maximum. */
    static method LastMaximum(scores: seq<real>) returns (pos: int)
      requires |scores| > 0
      ensures IsLastMaximum(scores, pos)
    {
      var best := scores[0];
      for i := 1 to |scores|
        invariant best in scores && forall j :: 0 <= j < i ==> scores[j] <= best
      {
        if scores[i] > best {
          best := scores[i];
        }
      }
      pos := 0;
      for i := 0 to |scores|
        invariant 0 <= pos < |scores| && (pos == 0 || scores[pos] == best)
        invariant forall j :: pos < j < i ==> scores[j] != best
        invariant pos < i || pos == 0
      {
        if scores[i] == best {
          pos := i;
        }
      }
    }
  }
}
