# Synonym dictionary over an AVL tree of stems

This project models `DicoSynonymes` (DicoSynonymes.cpp), a dictionary of
French stems (*radicaux*). Each stem lives in a node of an AVL tree ordered
by `std::string`'s `<`. A node carries the stem's inflections (*flexions*),
the ids of the synonym groups it belongs to (*appSynonymes*) and a cached
height (*hauteur*). The dictionary also keeps a stem counter (*nbRadicaux*)
and a table of synonym groups (*groupesSynonymes*). The model covers these
operations:

- stem insertion, search and removal, with `equilibrer` and the four
  rotations;
- adding, removing and reading inflections;
- adding a synonym to a new or an existing group, removing one, and querying
  the groups (`getSens`, `getSynonymes`, `getNombreSens`);
- the pre-order snapshot, the Levenshtein distance, the similarity score and
  the fuzzy lookup `rechercherRadical`.

Layout:

| file | module | models |
|---|---|---|
| order.dfy | `Order` | `std::string`'s `<` on stems |
| stem_tree.dfy | `StemTree` | nodes, heights, search, read-only descents, in-place data edits, pre-order walk |
| balancing.dfy | `Balancing` | `equilibrer`, the rotations and the balance tests |
| insertion.dfy | `Insertion` | `auxajouterRadical` |
| deletion.dfy | `Deletion` | `auxSupprimerRadical` and `enleverSuccMinDroit` |
| edit_distance.dfy | `EditDistance` | `distanceLevenstein` and `similitude` |
| lists.dfy | `Lists` | scans, `std::list::remove`, and the erase loop of `supprimerSynonyme` |
| unsigned.dfy | `Unsigned` | the `size_t` group-number test |
| dictionary.dfy | `Synonyms` | the `DicoSynonymes` object and its public operations |

The tree code is recursive and rebuilds subtrees through pointer references,
so it is modelled by functions on an immutable `Tree` datatype. Each
function returns the new subtree root. The dictionary object is a class
`Synonyms.Dictionary` whose methods update `root`, `count` and `groups` in
place. The loops of the source are methods with loop invariants:

- the flag scans;
- the copy loops of the getters;
- the group search of `getSens` and `getSynonymes`;
- the erase loop;
- the scoring, maximum and last-position loops of `rechercherRadical`;
- the Levenshtein grid, which is a 2-D array.

Behaviour of the code that the model reproduces as written:

- **The group-number test is unsigned.** It compares against
  `groupesSynonymes.size() - 1` as unsigned 64-bit values. With a non-empty
  table it therefore rejects negative numbers too. With an empty table it
  rejects nothing, so `-1` is not special in `supprimerSynonyme`
  (`Unsigned.ExceedsIffOutOfRange`, `Unsigned.EmptyTableAcceptsAll`).
- **A successor copy moves only the key.** Removing a node with two children
  copies only the successor's *stem* into it (line 771). The node keeps its
  own inflections and group ids, and the successor's data is lost
  (`Deletion.AfterRemoval`).
- **Heights on the successor walk are not refreshed.** The nodes between the
  removed node and its successor keep their old cached heights, so a removal
  can leave wrong heights (`Deletion.RemoveLeavesStaleHeight`). No AVL
  property is claimed after a removal.
- **The erase loop erases the front entry.** In `supprimerSynonyme` the loop
  discards the result of `std::next` and always erases the first entry. The
  index then still steps on over the shifted list. The synonym therefore
  loses as many leading ids as the walk finds matches, not the ids equal to
  the group number (`Lists.Hits`, `Lists.EraseDropsFrontEntry`).
- **Removing a stem leaves the groups alone.** `supprimerRadical` does not
  purge the synonym groups, so a removed stem stays listed.
- **An added synonym stays.** `ajouterSynonyme` adds an absent synonym as a
  stem, and it remains even when the call then fails with "already in the
  group".

Words are `string`s whose `char`s stand for the bytes of the source's
`std::string`s, so lengths, distances and the stem order are counted in bytes,
as the source counts them.

Groups hold node pointers in the source; here they hold the members' stems.
The two agree as long as no stem has been removed (see "## Left out").

## Model

| member | source | states |
|---|---|---|
| Order.Less | DicoSynonymes.cpp:616-620 | a proper prefix comes before the longer stem, and a stem never comes before one of its own prefixes |
| Order.LessIrreflexive | DicoSynonymes.cpp:616-620 | no stem is below itself, so the three-way descent is well defined |
| Order.LessAsymmetric | DicoSynonymes.cpp:616-620 | `<` on stems never holds both ways |
| Order.LessTransitive | DicoSynonymes.cpp:616-620 | `<` on stems is transitive, which the search order relies on |
| Order.LessTotal | DicoSynonymes.cpp:616-620 | two distinct stems are ordered one way or the other, so "neither smaller nor larger" means equal |
| StemTree.H | DicoSynonymes.cpp:592-595 | `hauteur` is -1 exactly for a null subtree and at least -1 otherwise |
| StemTree.Leaf | DicoSynonymes.cpp:503-504 | a new node holds just its stem, with no inflections, no groups and height 0, and is an AVL search tree of one node |
| StemTree.CachedHeightIsReal | DicoSynonymes.cpp:592-595 | when every cached height is right, `hauteur` is the true height |
| StemTree.SizeIsKeyCount | DicoSynonymes.cpp:501-507 | in a search tree the node count (what `nbRadicaux` tracks) is the number of distinct stems |
| StemTree.Contains | DicoSynonymes.cpp:616-620 | `auxradicalDansDico` answers true only for a stem present in the tree (the converse is `StemTree.ContainsIffKey`) |
| StemTree.ContainsIffKey | DicoSynonymes.cpp:604-621 | `radicalDansDico` answers true exactly for stems in the tree |
| StemTree.Locate | DicoSynonymes.cpp:788-820 | the descent of the getters, when it reaches a node, reaches one holding the sought stem, inside the tree |
| StemTree.LocateFinds | DicoSynonymes.cpp:788-820 | the descent of the getters reaches the node of a present stem and reads the data recorded for it |
| StemTree.SetInfo | DicoSynonymes.cpp:521-532 | editing one node's data keeps the keys, the order, the size, the heights and the balance |
| StemTree.SetInfoEntries | DicoSynonymes.cpp:567-583 | the edit changes the data of that stem and of no other |
| StemTree.PreOrder | DicoSynonymes.cpp:829-848 | the snapshot has one entry per node, all of them real nodes |
| StemTree.PreOrderNodes | DicoSynonymes.cpp:829-848 | every snapshot entry is a tree node carrying the tree's data for its stem |
| StemTree.PreOrderCovers | DicoSynonymes.cpp:829-848 | every stem of the tree appears in the snapshot |
| Balancing.LeftHeavy | DicoSynonymes.cpp:713-716 | `debalancementAGauche` holds only for a node whose left child exists (it is taller than the right by two) |
| Balancing.RightHeavy | DicoSynonymes.cpp:725-728 | `debalancementADroite` holds only for a node whose right child exists |
| Balancing.LeansRight | DicoSynonymes.cpp:737-740 | `sousArbrePencheADroite` holds only for a node whose right child exists |
| Balancing.LeansLeft | DicoSynonymes.cpp:749-752 | `sousArbrePencheAGauche` holds only for a node whose left child exists |
| Balancing.RotateWithLeftChild | DicoSynonymes.cpp:663-669 | `zigZigGauche` keeps the in-order sequence and the data, lifts the left child, and recomputes both heights |
| Balancing.RotateWithRightChild | DicoSynonymes.cpp:677-683 | `zigZigDroit`, the mirror image |
| Balancing.DoubleRotateWithLeftChild | DicoSynonymes.cpp:691-694 | `zigZagGauche` keeps the in-order sequence and the data and lifts the left child's right child |
| Balancing.DoubleRotateWithRightChild | DicoSynonymes.cpp:701-704 | `zigZagDroit`, the mirror image |
| Balancing.Rebalance | DicoSynonymes.cpp:628-656 | `equilibrer` keeps the in-order sequence and the data, only refreshes the height of a balanced node, and picks the root the heavy side and its lean call for |
| Balancing.RebalanceBST | DicoSynonymes.cpp:628-656 | rebalancing keeps the search order |
| Balancing.RebalanceLeftHeavy | DicoSynonymes.cpp:629-639 | a node two levels heavier on the left, with AVL sides, becomes an AVL tree of bounded height |
| Balancing.RebalanceRightHeavy | DicoSynonymes.cpp:640-649 | the mirror case |
| Balancing.RebalanceAVL | DicoSynonymes.cpp:628-656 | a node with AVL sides differing by at most two becomes an AVL tree, one level above its taller side at most |
| Insertion.Insert | DicoSynonymes.cpp:501-512 | the stems after an insertion are the old ones plus the new one |
| Insertion.InsertBST | DicoSynonymes.cpp:501-512 | inserting an absent stem keeps the search order, adds one node, and gives the stem empty data while the others keep theirs |
| Insertion.InsertAVL | DicoSynonymes.cpp:501-512 | insertion into an AVL tree gives an AVL tree whose height grows by at most one |
| Deletion.MinKey | DicoSynonymes.cpp:764-768 | the leftmost stem is a stem of the subtree (`Deletion.MinKeyIsLeast` adds that it is the least) |
| Deletion.MinKeyIsLeast | DicoSynonymes.cpp:764-768 | the leftmost stem is present and below every other stem of the subtree |
| Deletion.FindSuccessor | DicoSynonymes.cpp:760-768 | the walk stops at a node without a left child, whose stem is the least of the right subtree |
| Deletion.DetachMin | DicoSynonymes.cpp:759-777 | unlinking the successor removes exactly one node |
| Deletion.DetachMinBST | DicoSynonymes.cpp:759-777 | unlinking the successor keeps the search order and removes exactly the successor's stem and data |
| Deletion.Remove | DicoSynonymes.cpp:540-558 | `auxSupprimerRadical` on a present stem removes exactly one node |
| Deletion.RemoveBST | DicoSynonymes.cpp:540-558 | removal keeps the search order, removes exactly the stem, and leaves the data `AfterRemoval` describes (the successor's stem takes over the removed node's data) |
| Deletion.RemoveLeavesStaleHeight | DicoSynonymes.cpp:764-777 | removing the root of a 4-node AVL tree leaves cached heights of 2 over a tree of real height 1 |
| EditDistance.Min3 | DicoSynonymes.cpp:871 | `std::min` of three values is one of them and below all of them |
| EditDistance.Distance | DicoSynonymes.cpp:861-873 | the grid's last cell is the Levenshtein distance of the two words |
| EditDistance.FillRow | DicoSynonymes.cpp:870-871 | one pass of the inner loop fills row `i` with the distances of the prefixes and changes no other row |
| EditDistance.LevStep | DicoSynonymes.cpp:871 | each grid cell is the minimum over deletion, insertion and substitution from its neighbours |
| EditDistance.LevIdentical | DicoSynonymes.cpp:861-873 | identical words are at distance 0 |
| EditDistance.LevAtMostLonger | DicoSynonymes.cpp:861-873 | the distance never exceeds the longer word's length, which keeps the similarity in [0, 1] |
| EditDistance.LevAtLeastLengthGap | DicoSynonymes.cpp:861-873 | the distance is at least the difference of the lengths |
| EditDistance.LevZeroImpliesEqual | DicoSynonymes.cpp:861-873 | distance 0 means the words are equal |
| EditDistance.LevZeroIffEqual | DicoSynonymes.cpp:861-873 | distance 0 exactly for equal words |
| EditDistance.LevSymmetric | DicoSynonymes.cpp:861-873 | the distance does not depend on the order of the words |
| EditDistance.Similarity | DicoSynonymes.cpp:380-392 | the similarity lies between 0 and 1 |
| EditDistance.SimilarityOneIffEqual | DicoSynonymes.cpp:380-392 | a similarity of 1 means identical words, and only then |
| EditDistance.Similitude | DicoSynonymes.cpp:388-392 | `similitude` computes the similarity, which is in [0, 1] |
| Lists.Find | DicoSynonymes.cpp:525-527 | the scanning loops report true exactly when the element occurs |
| Lists.Without | DicoSynonymes.cpp:574 | `std::list::remove` leaves no occurrence of the element and keeps every other element |
| Lists.WithoutMultiset | DicoSynonymes.cpp:574 | removal takes out exactly the occurrences of the element, with multiplicities |
| Lists.WithoutAbsent | DicoSynonymes.cpp:295 | removing an absent element changes nothing |
| Lists.Hits | DicoSynonymes.cpp:298-304 | the erase loop erases at most as many entries as remain from where it starts |
| Lists.EraseGroupId | DicoSynonymes.cpp:297-304 | the erase loop leaves the list without its first `Hits` entries |
| Lists.HitsAbsent | DicoSynonymes.cpp:298-304 | a list without the group id is left unchanged |
| Lists.HitsPresent | DicoSynonymes.cpp:298-304 | a list holding the group id loses at least one entry |
| Lists.HitsAtMostOccurrences | DicoSynonymes.cpp:298-304 | no more entries are erased than there are occurrences of the group id |
| Lists.EraseDropsFrontEntry | DicoSynonymes.cpp:301-302 | removing from group 1 a synonym listed in groups [0, 1] leaves [1]: group 0's id goes and group 1's id stays |
| Unsigned.AsSize | DicoSynonymes.cpp:160 | the conversion to `size_t` is the identity on non-negative values and wraps negatives by 2^64 |
| Unsigned.ExceedsLastIndex | DicoSynonymes.cpp:160 | the unsigned test never rejects an index of the table, and an empty table rejects nothing |
| Unsigned.ExceedsIffOutOfRange | DicoSynonymes.cpp:277 | with a non-empty table the unsigned test rejects exactly the numbers that are not indices, negatives included |
| Unsigned.EmptyTableAcceptsAll | DicoSynonymes.cpp:160 | with an empty table the unsigned test rejects nothing |
| Synonyms.ExtendGroup | DicoSynonymes.cpp:188-202 | the extended group keeps the old members in front, lists the stem and ends with the synonym, at most two longer |
| Synonyms.JoinOnce | DicoSynonymes.cpp:205-214 | the stem's list gains the id only when it lacks it, and holds it afterwards |
| Synonyms.LastMaximumUnique | DicoSynonymes.cpp:356-363 | there is only one last position of the maximum score |
| Synonyms.Scores | DicoSynonymes.cpp:351-354 | one score per snapshot node, each the similarity of its stem to the word |
| Synonyms.AfterRemovalIds | DicoSynonymes.cpp:233-238 | after a removal every recorded group id still names a group |
| Synonyms.WithStem | DicoSynonymes.cpp:164-165 | after the synonym is made a stem it is present, the keys grow by it only, and a new entry is empty |
| Synonyms.Linked | DicoSynonymes.cpp:205-216 | after the ids are recorded both stems list the group and every other stem keeps its data |
| Synonyms.FirstSense | DicoSynonymes.cpp:439-444 | the answer of `getSens` is a member of the group |
| Synonyms.FirstSenseIsFirstSynonym | DicoSynonymes.cpp:439-444 | unless the stem fills both front places, `getSens` answers the first of the synonyms `getSynonymes` lists |
| Synonyms.Dictionary.constructor | DicoSynonymes.cpp:23-24 | the new dictionary is empty and consistent |
| Synonyms.Dictionary.IsEmpty | DicoSynonymes.cpp:318-320 | `estVide` is true exactly when no stem is present |
| Synonyms.Dictionary.StemCount | DicoSynonymes.cpp:328-330 | `nombreRadicaux` is the number of distinct stems |
| Synonyms.Dictionary.HasStem | DicoSynonymes.cpp:604-606 | `radicalDansDico` is true exactly for present stems |
| Synonyms.Dictionary.AddStem | DicoSynonymes.cpp:117-121 | a duplicate is refused; otherwise the stem is added with empty data, the count rises by one, the others keep their data, and an AVL tree stays AVL |
| Synonyms.Dictionary.AddInflection | DicoSynonymes.cpp:134-141 | an absent stem and an existing inflection are refused; otherwise the inflection is appended to that stem only |
| Synonyms.Dictionary.RemoveInflection | DicoSynonymes.cpp:251-259 | an empty tree, an absent stem and a missing inflection are refused; otherwise every occurrence of it leaves that stem's list only |
| Synonyms.Dictionary.RemoveStem | DicoSynonymes.cpp:233-238 | an empty tree and an absent stem are refused; otherwise the stem goes, the count drops by one, the order holds, the data is as `AfterRemoval` says, and the groups are untouched |
| Synonyms.Dictionary.SenseCount | DicoSynonymes.cpp:402-404 | `getNombreSens` is the length of the stem's membership list |
| Synonyms.CopyList | DicoSynonymes.cpp:812-814 | the element-by-element copy into a vector yields the same list in the same order |
| Synonyms.Dictionary.Inflections | DicoSynonymes.cpp:488-491 | `getFlexions` returns the stem's inflections in order |
| Synonyms.Dictionary.AddSynonym | DicoSynonymes.cpp:159-217 | each refusal in source order, with the state it leaves; on success the exact new table and data, and both words listed in the group and recording its id |
| Synonyms.Dictionary.OpenGroup | DicoSynonymes.cpp:179-184 | with -1 a group [stem, synonym] is appended and its id is the old table size |
| Synonyms.Dictionary.JoinExistingGroup | DicoSynonymes.cpp:186-203 | a group already listing the synonym is refused unchanged; otherwise it is extended and both stems record it |
| Synonyms.Dictionary.EnsureStem | DicoSynonymes.cpp:164-165 | an absent synonym becomes a stem with empty data; keys grow by it only and AVL is kept |
| Synonyms.Dictionary.JoinGroup | DicoSynonymes.cpp:205-216 | the stem records the id once and the synonym always; nothing else changes |
| Synonyms.Dictionary.RemoveSynonym | DicoSynonymes.cpp:272-310 | each refusal in source order; otherwise the synonym leaves the group entirely and its list loses `Hits` leading entries |
| Synonyms.Dictionary.GroupIdAt | DicoSynonymes.cpp:422-425 | reading `appSynonymes[position]` through a present stem's node gives that stem's recorded membership entry |
| Synonyms.Dictionary.ScanGroup | DicoSynonymes.cpp:420-426 | scanning one group takes the stem's membership entry at `position` if the stem is a member and leaves the running choice unchanged otherwise |
| Synonyms.Dictionary.SelectGroup | DicoSynonymes.cpp:415-427 | the group chosen is the stem's membership entry at `position` when the stem is listed somewhere, group 0 otherwise |
| Synonyms.Dictionary.Sense | DicoSynonymes.cpp:414-445 | `getSens` answers the group's front member, or the next one when the front is the stem |
| Synonyms.Dictionary.Synonyms | DicoSynonymes.cpp:455-478 | `getSynonymes` lists the chosen group without the stem, in group order |
| Synonyms.Dictionary.ResolveStem | DicoSynonymes.cpp:344-377 | an empty tree is refused; otherwise the last best-scoring node decides, and a stem is returned only when the word is one of its inflections |
| Synonyms.Dictionary.ScoreAll | DicoSynonymes.cpp:351-354 | the scoring loop computes one similarity per snapshot node |
| Synonyms.Dictionary.LastMaximum | DicoSynonymes.cpp:356-364 | the position found holds the maximum score and no later position reaches it |

## Left out

- The file constructor and `chargerDicoSynonyme` (file I/O), the destructor, and memory exhaustion (`bad_alloc`) are not modelled.
- Synonyms.Dictionary.ResolveStem: scores are exact reals, not `float`. Rounding and the NaN that two empty words produce (0/0) are not modelled; two empty words score 1.
- Pointer identity is not modelled: groups hold stems, not nodes. After a stem removal, a group may still name a removed stem, or name a stem whose node now holds the successor's stem. The model compares by stem where the source compares pointers or dereferences them, so dangling pointers and undefined behaviour after a removal are not captured.
- Synonyms.Dictionary.AddSynonym: the pre-order scan that finds the two nodes' addresses is modelled by the search descent, which reaches the same unique node in a search tree.
- Synonyms.Dictionary.RemoveSynonym: once the first entry is erased, the iterator used by the erase loop is invalid. The model follows what the loop evidently does and erases the front entry each time.
- Synonyms.Dictionary.RemoveStem: the new tree is not claimed to be AVL, since cached heights can go stale.
- Undefined behaviour in the source becomes a precondition:
  - the getters on an absent stem;
  - `getSens`/`getSynonymes` with an out-of-range `position`, an empty table, or a group too short to index;
  - the uninitialised `adresseAEnlever` when the group does not list the synonym;
  - indexing an empty group table.
- Integer widths:
  - Group numbers are 32-bit `int`, and the tables are kept below 2^31 groups by precondition.
  - Stem and inflection counts are unbounded.
  - The Levenshtein grid uses unbounded naturals; the source's `unsigned int` cannot overflow for words of realistic length.
- A Dafny `char` stands for one byte of a `std::string` (a value 0-255), so lengths, the Levenshtein grid and the stem order count and compare bytes as the source does. Characters above 255 have no counterpart in the source and say nothing about it.
