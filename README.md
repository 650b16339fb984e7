# Persistent red-black tree, modelled in Dafny

This is a model of `RbTree<T>`, a persistent set stored as a red-black tree.
Every `insert` and `remove` returns a new version. `insert` leaves the old
version as it was (`Heap.RbTree.Insert` changes no existing node). `remove` is
meant to do the same, but as written it can rewrite a node of the old version
(Finding 4). Versions share all the subtrees they did not change. The class is
its own node type. A head node with a null key is always black and holds the
root in its `left` slot. Elements are ordered by their `hashCode()`. On equal
hashes, `equals` decides whether the element was found; an unequal element
with the same hash goes right.

The project has two layers.

- **Values.** `Trees.Tree` is the value one version's node graph stands for.
  The operations are functions on it, and the lemmas prove their properties:
  - `Lookup`: `find`, `findNode`;
  - `Insertion`: `insert`, `insertCopy`, `insertFix`;
  - `Deletion`: `remove`, `removeOnSon`, `removeRightmost`, `removeSon`, `removeFix` and `removeCase1`..`removeCase6`,
    twice: as written (`RemoveAsWritten` and the `…AsWritten` steps) and
    corrected (`Remove`, whose properties are proved; see Findings 2 and 3);
  - `Diagnostics`: `valid`, `validBlackHeight`, `size`, `hashCode`, `empty`.
- **Objects.** `Heap.RbTree` is the class. It has the fields `key`, `red`,
  `left` and `right`, and a ghost footprint `Repr`. It has the four
  constructors, the rotations, `swapSon`, the whole insertion chain
  (`insert`, `insertCopy`, `insertFix`), and the one-son step of `removeSon`.
  - Each method says exactly which objects it changes.
  - `Valid()` and `Model()` tie the objects to the value layer. Each
    insertion method is proved to compute the value of the matching
    value-layer function; `Heap.RbTree.Insert` computes `Insertion.Insert`.
  - `insertCopy` and `insert` have `modifies {}`: they only allocate. So no
    node of the version they start from can change. The version still stands
    for the same value, so its `size()`, `hashCode()` and `find` results stay
    the same.

The element hash `h: T -> int` is a parameter of every definition that needs
it. `int` keys (as `Integer`) use `Trees.Identity`. A null key is `None` in
an `Option`. The `NullPointerException` the source throws for it is the
`NullKey` case of `Trees.Result`.

Points where the code does something other than its comments suggest, or
other than a textbook red-black tree:

- **Hash order.** Rotations can move a key to the left of a key with the same
  hash. So the order kept is non-strict on both sides (`Trees.Sorted`), not
  "smaller on the left".
- **The `hashCode()` sign.** The documentation of `hashCode()` (lines 68-76)
  says only that key hashes are "mixed with node colors". The code adds the
  hash of a red node and subtracts that of a black node (`red ? 1 : -1`).
- **`valid()`.** It checks the order only between a parent and its children
  (`Diagnostics.ValidMissesOrder`). It does not check the full hash order.
- **Removing an absent key.** The documentation of `remove` (lines 319-325)
  promises the same version back. As written, `remove` may remove another
  key instead (Finding 2, `Deletion.AbsentKeyRemoved`). The corrected
  `Deletion.Remove` keeps that promise.
- **Insertion does no lookup first.** `insert` descends by the rule of
  `findNode`, so with colliding hashes it can store a key a second time
  (Finding 1). `Insertion.Insert` models it as written.
- **Removing a red leaf clears its brother too** (line 442, Finding 3). As
  written, `remove` can lose keys: `remove(4)` on 4(2(1, 3), 6) also loses 1
  (`Deletion.RemoveAsWrittenLosesKey`). It still keeps every invariant and
  takes at least one key out of a non-empty version
  (`Deletion.RemoveAsWrittenValid`). The test `insertAndDelete` removes as
  many keys as it inserted and checks only `valid()` and emptiness, so its
  checks hold for every hash and cannot see the loss
  (`Deletion.InsertThenRemoveAllAsWritten`): a later removal of a lost key
  takes out some other key instead (Finding 2).

All source paths below are relative to the repository root.

## Model

| member | source | states |
|---|---|---|
| Trees.Blacken | src/main/java/org/apanchenko/persistent/RbTree.java:246-247 | a black copy of a node has the same children and the same in-order keys |
| Trees.Paint | src/main/java/org/apanchenko/persistent/RbTree.java:545-548 | a repainted node keeps its key, its children and its in-order keys, and has the new colour |
| Trees.Size | src/main/java/org/apanchenko/persistent/RbTree.java:101-109 | `size()` is the number of keys the tree holds in order |
| Trees.SizeElems | src/main/java/org/apanchenko/persistent/RbTree.java:101-109 | the size is the number of stored keys, counting repeats |
| Trees.WithChild | src/main/java/org/apanchenko/persistent/RbTree.java:694-702 | `swapSon` on a value replaces the child on one side, and only that child |
| Trees.RotateLeft | src/main/java/org/apanchenko/persistent/RbTree.java:274-291 | a left rotation keeps the in-order keys; the old right child, in its colour, is on top, with the old top, in its colour, as its left child |
| Trees.RotateRight | src/main/java/org/apanchenko/persistent/RbTree.java:293-310 | the mirror image of `RotateLeft` |
| Trees.SortedKeys | src/main/java/org/apanchenko/persistent/RbTree.java:676-678 | a tree is in hash order exactly when its in-order keys are sorted by hash |
| Trees.SortedSameKeys | src/main/java/org/apanchenko/persistent/RbTree.java:274-310 | rearranging nodes without changing the in-order keys, as rotations do, keeps the hash order |
| Trees.ElemsSameKeys | src/main/java/org/apanchenko/persistent/RbTree.java:274-310 | rearranging nodes without changing the in-order keys keeps the stored multiset |
| Lookup.FindNode | src/main/java/org/apanchenko/persistent/RbTree.java:707-715 | a key `findNode` returns equals the query and is stored in the tree |
| Lookup.Find | src/main/java/org/apanchenko/persistent/RbTree.java:154-167 | a null key is an error, and only a null key; an empty tree finds nothing; a found key equals the query and is stored |
| Lookup.FindNodeComplete | src/main/java/org/apanchenko/persistent/RbTree.java:707-715 | in a hash-ordered tree where no other key shares the query's hash, `findNode` finds the query exactly when it is stored |
| Lookup.FindFixed | src/main/java/org/apanchenko/persistent/RbTree.java:707-715 | the corrected lookup (it also searches left on equal hashes) returns only stored keys equal to the query |
| Lookup.FindFixedComplete | src/main/java/org/apanchenko/persistent/RbTree.java:707-715 | in every hash-ordered tree the corrected lookup finds the query exactly when it is stored |
| Lookup.FindFixedAgrees | src/main/java/org/apanchenko/persistent/RbTree.java:707-715 | without a hash collision on the query, the corrected lookup and `findNode` agree |
| Insertion.InsertFix | src/main/java/org/apanchenko/persistent/RbTree.java:241-272 | `insertFix` keeps the in-order keys of the subtree it repairs |
| Insertion.FixLeft | src/main/java/org/apanchenko/persistent/RbTree.java:252-260 | the red-left-son branch keeps the in-order keys |
| Insertion.FixRight | src/main/java/org/apanchenko/persistent/RbTree.java:263-271 | the red-right-son branch keeps the in-order keys |
| Insertion.FixLeftValid | src/main/java/org/apanchenko/persistent/RbTree.java:252-260 | the left branch keeps the tree balanced with the same black height, and leaves a red-red pair only at the top of a red clone |
| Insertion.FixRightValid | src/main/java/org/apanchenko/persistent/RbTree.java:263-271 | the mirror image of `FixLeftValid` |
| Insertion.InsertFixValid | src/main/java/org/apanchenko/persistent/RbTree.java:241-272 | `insertFix` keeps the black height, and leaves at most a red-red pair at the top, and then only under a red node |
| Insertion.InsertCopy | src/main/java/org/apanchenko/persistent/RbTree.java:201-236 | a changed copy keeps the node's key and colour, and holds the old keys plus the new one |
| Insertion.InsertBelow | src/main/java/org/apanchenko/persistent/RbTree.java:206-233 | the new child slot holds the old child's keys plus the new one |
| Insertion.InsertCopyFinds | src/main/java/org/apanchenko/persistent/RbTree.java:201-205 | `insertCopy` returns `this` exactly when `findNode` finds the key |
| Insertion.InsertBelowFinds | src/main/java/org/apanchenko/persistent/RbTree.java:212-213 | the child slot is left as it was exactly when `findNode` finds the key below it |
| Insertion.InsertCopyValid | src/main/java/org/apanchenko/persistent/RbTree.java:201-236 | the copy `insertCopy` returns meets what `insertFix` needs, keeps the black height and keeps the hash order |
| Insertion.AttachValid | src/main/java/org/apanchenko/persistent/RbTree.java:212-217 | putting the repaired child back under a clone of its parent satisfies the precondition of `insertFix` |
| Insertion.InsertBelowValid | src/main/java/org/apanchenko/persistent/RbTree.java:206-233 | the new child is balanced, keeps the hash order and black height, and is red-red only at the top of a red slot |
| Insertion.InsertRoot | src/main/java/org/apanchenko/persistent/RbTree.java:176-196 | the empty tree becomes one black node; a key that `findNode` finds leaves the root as it was; otherwise the key is added |
| Insertion.InsertRootValid | src/main/java/org/apanchenko/persistent/RbTree.java:176-196 | insertion keeps the root black, the two colour rules and the hash order |
| Insertion.Insert | src/main/java/org/apanchenko/persistent/RbTree.java:176-196 | as written, with no lookup first: a null key is an error and only a null key; the empty tree gets one black node; a key `findNode` finds leaves the version as it is |
| Insertion.InsertSpec | src/main/java/org/apanchenko/persistent/RbTree.java:176-196 | insertion keeps every invariant and adds the key exactly when `findNode` misses it; without a hash collision on the key it is added exactly when absent, `findNode` finds it afterwards, and a version holding no key twice still holds none twice |
| Insertion.InsertAllSpec | src/test/java/org/apanchenko/persistent/RbTreeTest.java:104-116 | after a sequence of insertions as written every version is a valid red-black tree that holds the old keys and the inserted ones |
| Insertion.InsertAllUnique | src/main/java/org/apanchenko/persistent/RbTree.java:201-205 | with an injective hash, as for `Integer` keys, inserting keys one after another keeps a version that holds no key twice |
| Insertion.InsertAllDistinct | src/test/java/org/apanchenko/persistent/RbTreeTest.java:31-50 | inserting distinct new keys as written adds each once, and the size grows by their number |
| Insertion.InsertFirst | src/test/java/org/apanchenko/persistent/RbTreeTest.java:104-110 | the first of distinct new keys is added by the insertion as written, and the rest stay distinct and absent |
| Insertion.InsertAllElems | src/test/java/org/apanchenko/persistent/RbTreeTest.java:104-110 | inserting distinct new keys adds exactly those keys |
| Insertion.DistinctTail | src/test/java/org/apanchenko/persistent/RbTreeTest.java:104-110 | the tail of a sequence of distinct keys is distinct and misses the head |
| Insertion.CollisionLosesKey | src/main/java/org/apanchenko/persistent/RbTree.java:707-715 | with one hash for all keys, after inserting 1, 2, 3 the key 1 is stored but `findNode` misses it, and inserting 1 again stores it twice |
| Deletion.RedSon | src/main/java/org/apanchenko/persistent/RbTree.java:683-689 | `getRedSon` when `HasRedSon` holds (it does not return null): a red son, and the left one whenever the left son is red |
| Deletion.Nephew | src/main/java/org/apanchenko/persistent/RbTree.java:491-493 | the nephew of cases 3 and 4 is a son of the brother: the one on the deleted side when it exists, otherwise the other one; it is null only when the brother has no son |
| Deletion.RemoveCase1 | src/main/java/org/apanchenko/persistent/RbTree.java:518-539 | case 1 keeps the in-order keys |
| Deletion.RemoveCase2 | src/main/java/org/apanchenko/persistent/RbTree.java:545-548 | case 2 keeps the in-order keys |
| Deletion.RemoveCase3 | src/main/java/org/apanchenko/persistent/RbTree.java:553-616 | case 3 keeps the in-order keys whenever the brother has a son on the deleted side |
| Deletion.RemoveCase4 | src/main/java/org/apanchenko/persistent/RbTree.java:621-639 | case 4 keeps the in-order keys |
| Deletion.RemoveCase5 | src/main/java/org/apanchenko/persistent/RbTree.java:644-659 | case 5 keeps the in-order keys |
| Deletion.RemoveCase6 | src/main/java/org/apanchenko/persistent/RbTree.java:664-666 | case 6 keeps the in-order keys |
| Deletion.RemoveFix | src/main/java/org/apanchenko/persistent/RbTree.java:471-513 | `fixup.required` is left true exactly in case 6 (black parent, black brother, no red nephew); without a brother nothing changes |
| Deletion.Case1Valid | src/main/java/org/apanchenko/persistent/RbTree.java:518-539 | case 1 repairs the short side: the result satisfies both colour rules, has the black height the parent should have, and is red only if the parent was |
| Deletion.Case2Valid | src/main/java/org/apanchenko/persistent/RbTree.java:545-548 | case 2 repairs the short side, as for case 1 |
| Deletion.Case3Valid | src/main/java/org/apanchenko/persistent/RbTree.java:553-616 | in a valid tree case 3 always finds a son of the brother on the deleted side (so the branch of lines 563-566 is never taken), and it repairs the short side as for case 1 |
| Deletion.Case4Valid | src/main/java/org/apanchenko/persistent/RbTree.java:621-639 | case 4 repairs the short side, as for case 1 |
| Deletion.Case5Valid | src/main/java/org/apanchenko/persistent/RbTree.java:644-659 | case 5 repairs the short side, as for case 1 |
| Deletion.Case6Valid | src/main/java/org/apanchenko/persistent/RbTree.java:664-666 | case 6 leaves a valid black subtree one black node short, and the flag passes the shortage up |
| Deletion.RemoveFixValid | src/main/java/org/apanchenko/persistent/RbTree.java:471-513 | `removeFix` gives a valid subtree with the same keys, whose black height is the intended one, or one less exactly when the flag says so |
| Deletion.RemoveSonAsWritten | src/main/java/org/apanchenko/persistent/RbTree.java:433-466 | `removeSon` as written, seen from the parent: removing a node with one son never asks for a fix-up |
| Deletion.RemoveSon | src/main/java/org/apanchenko/persistent/RbTree.java:433-466 | the corrected `removeSon`: only the removal of a black leaf asks for a fix-up, and it leaves an empty slot |
| Deletion.RemoveSonValid | src/main/java/org/apanchenko/persistent/RbTree.java:433-466 | removing a node with at most one son is a valid replacement for it and keeps exactly the keys of its sons |
| Deletion.RemoveSonElems | src/main/java/org/apanchenko/persistent/RbTree.java:451-465 | what is left is empty or one leaf, and it holds every key but the removed node's |
| Deletion.RemoveRightmost | src/main/java/org/apanchenko/persistent/RbTree.java:413-428 | corrected (the corrected `RemoveSon` at line 420): the key returned is the last key of the subtree in order |
| Deletion.RemoveMatch | src/main/java/org/apanchenko/persistent/RbTree.java:368-403 | corrected (the corrected `RemoveSon` at line 401): a matched leaf leaves an empty slot, short by one black node exactly when it was black |
| Deletion.RemoveOnSon | src/main/java/org/apanchenko/persistent/RbTree.java:339-404 | corrected (the corrected `RemoveSon`): a leaf where the descent stops leaves an empty slot, short exactly when it was black |
| Deletion.ReattachValid | src/main/java/org/apanchenko/persistent/RbTree.java:358-365 | putting the new subtree into the parent's slot, with a fix-up when it is short, keeps the invariants one level up and the keys in order |
| Deletion.Reattach | src/main/java/org/apanchenko/persistent/RbTree.java:358-365 | the parent's step: a replacement that asks for no fix-up is put into the slot as it is; the flag is passed up only when it was set |
| Deletion.RemoveRightmostValid | src/main/java/org/apanchenko/persistent/RbTree.java:413-428 | corrected (the corrected `RemoveSon` at line 420): the last key in order is removed and returned, and the rest is a valid replacement |
| Deletion.SortedWithFewer | src/main/java/org/apanchenko/persistent/RbTree.java:358-362 | a child with a subset of the old child's keys keeps the parent in hash order |
| Deletion.MatchLeftSonValid | src/main/java/org/apanchenko/persistent/RbTree.java:379-386 | a left son without a right son that takes the node's place removes exactly the node's key and keeps the tree valid and ordered |
| Deletion.BlackLeftSonFix | src/main/java/org/apanchenko/persistent/RbTree.java:380-384 | a black left son that is lifted leaves the slot a valid replacement after the fix-up, with the same keys |
| Deletion.LiftLeftSon | src/main/java/org/apanchenko/persistent/RbTree.java:380 | the lifted left son keeps the hash order and every key but the node's |
| Deletion.RedLeftSonFix | src/main/java/org/apanchenko/persistent/RbTree.java:382-384 | after lifting a red left son the fix-up changes nothing |
| Deletion.MatchRightmostValid | src/main/java/org/apanchenko/persistent/RbTree.java:387-397 | corrected (through the corrected `RemoveRightmost`): replacing the node's key by the rightmost key of its left subtree removes exactly the node's key and keeps the tree valid and ordered |
| Deletion.RightmostLift | src/main/java/org/apanchenko/persistent/RbTree.java:388-391 | the left subtree without its last key, under that key, keeps the hash order and every key but the node's |
| Deletion.RightmostBound | src/main/java/org/apanchenko/persistent/RbTree.java:413-428 | without its last key an ordered subtree stays ordered, and all its keys hash no higher than that key |
| Deletion.MatchSonValid | src/main/java/org/apanchenko/persistent/RbTree.java:400-403 | corrected (the corrected `RemoveSon` at line 401): removing a node with at most one son removes exactly its key and keeps the order |
| Deletion.RemoveMatchValid | src/main/java/org/apanchenko/persistent/RbTree.java:368-403 | corrected (the corrected `RemoveSon`): removing the node the descent reached removes exactly its key and is a valid, ordered replacement |
| Deletion.RemoveOnSonValid | src/main/java/org/apanchenko/persistent/RbTree.java:339-404 | corrected (the corrected `RemoveSon`): when `findNode` reaches the key, the descent removes exactly one occurrence of it and gives a valid, ordered replacement |
| Deletion.DescendValid | src/main/java/org/apanchenko/persistent/RbTree.java:353-366 | one level of the rebuilt path keeps the invariants and the removal of one occurrence |
| Deletion.RebuildOrdered | src/main/java/org/apanchenko/persistent/RbTree.java:361-364 | the rebuilt parent is in hash order and holds the old keys but one occurrence of the removed key |
| Deletion.RebuildElems | src/main/java/org/apanchenko/persistent/RbTree.java:361-362 | a parent whose son lost one occurrence of a key loses that occurrence too |
| Deletion.Remove | src/main/java/org/apanchenko/persistent/RbTree.java:319-334 | corrected (guarded by `findNode`, and the corrected `RemoveSon`): a null key is an error and only a null key; the empty tree, or a key `findNode` does not find, leaves the version as it is, as the documentation of `remove` promises |
| Deletion.RemoveSpec | src/main/java/org/apanchenko/persistent/RbTree.java:319-325 | corrected: removal keeps every invariant; a found key loses one occurrence and the size drops by one; other keys leave the version unchanged; without a collision the key is found exactly when it is stored; a version holding no key twice keeps that, and `findNode` misses the key afterwards |
| Deletion.RemoveUnique | src/main/java/org/apanchenko/persistent/RbTree.java:319-325 | corrected: removal from a version holding no key twice leaves one holding none twice, in which `findNode` no longer finds the key |
| Deletion.UniqueLess | src/main/java/org/apanchenko/persistent/RbTree.java:319-325 | a version with one occurrence of a key less than a version holding no key twice holds none twice and not that key |
| Deletion.RemoveFound | src/main/java/org/apanchenko/persistent/RbTree.java:319-325 | corrected: removing a key `findNode` finds keeps the invariants, removes one occurrence and drops the size by one |
| Deletion.RemoveInjective | src/main/java/org/apanchenko/persistent/RbTree.java:319-325 | corrected: with an injective hash one removal takes out one occurrence of the key |
| Deletion.RemoveAllSpec | src/main/java/org/apanchenko/persistent/RbTree.java:319-325 | corrected: with an injective hash, removing keys one after another keeps every version valid and takes out one occurrence of each |
| Deletion.InsertThenRemoveAll | src/main/java/org/apanchenko/persistent/RbTree.java:319-325 | corrected removal: inserting distinct keys and removing them in any order gives the empty tree, and every insertion keeps the tree valid |
| Deletion.InsertThenRemove | src/main/java/org/apanchenko/persistent/RbTree.java:319-325 | corrected removal: inserting a new key without a hash collision and removing it again gives a valid version with the original keys |
| Deletion.AbsentKeyRemoved | src/main/java/org/apanchenko/persistent/RbTree.java:347-353 | in the tree holding only 1, `remove` as written for the absent key 2 gives the empty tree; the corrected `Remove` leaves the version unchanged |
| Deletion.RedLeafDropsBrother | src/main/java/org/apanchenko/persistent/RbTree.java:440-444 | removing the red leaf 1 from the valid tree 2(1, 3) as written also drops 3; the corrected step keeps it |
| Deletion.RemoveSonAgrees | src/main/java/org/apanchenko/persistent/RbTree.java:433-466 | except for a red leaf with a brother, the step as written and the corrected step agree |
| Deletion.RemoveSonAsWrittenLoses | src/main/java/org/apanchenko/persistent/RbTree.java:440-444 | in a valid tree, line 442 loses exactly the removed leaf and its brother's subtree |
| Deletion.RemoveRightmostAsWritten | src/main/java/org/apanchenko/persistent/RbTree.java:413-428 | as written: the key returned is the last key of the subtree in order |
| Deletion.RemoveBothAsWritten | src/main/java/org/apanchenko/persistent/RbTree.java:376-397 | as written: the slot comes out short only under a black node; `BothAsWrittenValid` proves the result a valid, ordered replacement without the node's key, and `BothAgrees` that it equals the corrected step where no red leaf has a brother |
| Deletion.RemoveOnSonAsWritten | src/main/java/org/apanchenko/persistent/RbTree.java:339-404 | as written: a red leaf where the descent stops is removed by line 442, which clears both slots of the parent copy; a black leaf leaves the parent copy to `removeFix` |
| Deletion.RemoveAsWritten | src/main/java/org/apanchenko/persistent/RbTree.java:326-334 | as written: a null key is an error and only a null key; the empty tree stays empty; no lookup guards the descent |
| Deletion.RemoveAsWrittenDropsBrother | src/main/java/org/apanchenko/persistent/RbTree.java:440-444 | `remove(1)` as written on the valid tree 2(1, 3) gives 2 alone; the corrected `Remove` gives 2(-, 3) |
| Deletion.RemoveAsWrittenLosesKey | src/main/java/org/apanchenko/persistent/RbTree.java:387-391 | `remove(4)` as written on 4(2(1, 3), 6) takes 3 through line 420, and line 442 on the copy of 2 loses 1: the result is 3(2, 6); the corrected `Remove` gives 3(2(1, -), 6) |
| Deletion.LossInputValid | src/main/java/org/apanchenko/persistent/RbTree.java:141-145 | the input 4(2(1, 3), 6) of that example is a valid version |
| Deletion.LossResultValid | src/main/java/org/apanchenko/persistent/RbTree.java:141-145 | its result 3(2, 6) is a valid version too, so `valid()` passes, and it no longer holds 1 |
| Deletion.RightmostAgrees | src/main/java/org/apanchenko/persistent/RbTree.java:413-428 | where no red leaf has a brother, `removeRightmost` as written and the corrected step agree |
| Deletion.BothAgrees | src/main/java/org/apanchenko/persistent/RbTree.java:377-398 | where no red leaf has a brother, lines 377-398 as written and the corrected step agree |
| Deletion.OnSonAgrees | src/main/java/org/apanchenko/persistent/RbTree.java:339-404 | where no red leaf has a brother, the descent as written equals the corrected descent put back under the parent |
| Deletion.RemoveAsWrittenAgrees | src/main/java/org/apanchenko/persistent/RbTree.java:326-334 | where no red leaf has a brother and `findNode` finds the key, `remove` as written and the corrected `Remove` give the same version |
| Deletion.FewerByOne | src/main/java/org/apanchenko/persistent/RbTree.java:326-334 | a multiset that is still inside another after one more element is added is smaller than it |
| Deletion.ReattachFewer | src/main/java/org/apanchenko/persistent/RbTree.java:358-365 | the parent's step keeps a valid, ordered replacement with fewer keys valid, ordered and with fewer keys one level up |
| Deletion.RebuildBelow | src/main/java/org/apanchenko/persistent/RbTree.java:422-427 | a copy whose right son lost keys, all bounded by the key taken out, stays ordered and is bounded by that key |
| Deletion.RightSlotBelow | src/main/java/org/apanchenko/persistent/RbTree.java:422-427 | every key of the copy with a new right son hashes no higher than a bounding key of the old right son |
| Deletion.RightSlotElems | src/main/java/org/apanchenko/persistent/RbTree.java:422-427 | the copy with a new right son holds the keys of the original less those the son lost |
| Deletion.RightmostAsWrittenValid | src/main/java/org/apanchenko/persistent/RbTree.java:413-428 | as written: the rest is a valid, ordered replacement whose keys all hash no higher than the key returned, and it holds neither that key nor (line 442) possibly the last node's brother |
| Deletion.RightmostDropsBrother | src/main/java/org/apanchenko/persistent/RbTree.java:418-420 | as written: a red last node with a brother leaves its parent copy a lone valid leaf, below the key returned |
| Deletion.RightmostLast | src/main/java/org/apanchenko/persistent/RbTree.java:418-420 | as written: any other last node is removed as by the corrected step, with the same guarantees |
| Deletion.RightmostDeeper | src/main/java/org/apanchenko/persistent/RbTree.java:422-427 | as written: the guarantees of the step below carry over to the parent's step |
| Deletion.BothAsWrittenValid | src/main/java/org/apanchenko/persistent/RbTree.java:377-398 | as written: removing a matched node with two sons gives a valid, ordered replacement without the node's key |
| Deletion.OnSonAsWrittenValid | src/main/java/org/apanchenko/persistent/RbTree.java:339-404 | as written: the descent gives a valid, ordered replacement for the parent holding fewer keys, whatever the key looked for |
| Deletion.KeepOnlyRoot | src/main/java/org/apanchenko/persistent/RbTree.java:440-444 | line 442 with a brother present turns the parent into a lone leaf that is still a valid replacement, with fewer keys |
| Deletion.RemoveAsWrittenValid | src/main/java/org/apanchenko/persistent/RbTree.java:326-334 | as written: `remove` keeps every invariant, so `valid()` passes afterwards, and it takes at least one key out of a non-empty version, whatever the key |
| Deletion.TopLevelOk | src/main/java/org/apanchenko/persistent/RbTree.java:329-333 | a valid replacement for a black root with fewer keys is a valid, smaller version |
| Deletion.RemoveAllAsWrittenSpec | src/test/java/org/apanchenko/persistent/RbTreeTest.java:94-99 | removing keys one after another as written keeps every version valid, and each removal takes at least one key out until the version is empty |
| Deletion.InsertThenRemoveAllAsWritten | src/test/java/org/apanchenko/persistent/RbTreeTest.java:76-102 | the test as written: inserting distinct keys and then removing as many keys gives the empty tree, and every version on the way passes `valid()`, for every hash |
| Diagnostics.Wrap | src/main/java/org/apanchenko/persistent/RbTree.java:77-86 | a wrapped sum is a 32-bit `int` |
| Diagnostics.WrapAdd | src/main/java/org/apanchenko/persistent/RbTree.java:82-84 | wrapping an intermediate sum does not change the wrapped total |
| Diagnostics.IsEmpty | src/main/java/org/apanchenko/persistent/RbTree.java:91-93 | a version is empty exactly when its size is zero and it holds no key |
| Diagnostics.HashCode | src/main/java/org/apanchenko/persistent/RbTree.java:77-86 | `hashCode()` is a 32-bit `int` |
| Diagnostics.HashCodeRaw | src/main/java/org/apanchenko/persistent/RbTree.java:77-86 | `hashCode()` is the wrapped sum of every node's hash, negated for black nodes |
| Diagnostics.RotateLeftHash | src/main/java/org/apanchenko/persistent/RbTree.java:274-291 | a left rotation keeps the hash code |
| Diagnostics.RotateRightHash | src/main/java/org/apanchenko/persistent/RbTree.java:293-310 | a right rotation keeps the hash code |
| Diagnostics.PaintHash | src/main/java/org/apanchenko/persistent/RbTree.java:79-80 | repainting a node black to red adds twice its key's hash, in 32-bit arithmetic |
| Diagnostics.ValidBlackHeight | src/main/java/org/apanchenko/persistent/RbTree.java:721-747 | the result is a height or `INVALID` |
| Diagnostics.ValidBlackHeightSpec | src/main/java/org/apanchenko/persistent/RbTree.java:721-747 | `validBlackHeight` succeeds exactly on subtrees with both colour rules and the parent-child order, and then returns the black height |
| Diagnostics.ValidSpec | src/main/java/org/apanchenko/persistent/RbTree.java:141-145 | `valid()` holds exactly for a black root with both colour rules and the parent-child order |
| Diagnostics.Valid | src/main/java/org/apanchenko/persistent/RbTree.java:141-145 | `valid()` holds on the empty version, and only for a black root |
| Diagnostics.SortedLocalOrder | src/main/java/org/apanchenko/persistent/RbTree.java:726-737 | the full hash order implies the order `validBlackHeight` checks |
| Diagnostics.RbTreeValid | src/main/java/org/apanchenko/persistent/RbTree.java:141-145 | every version the operations keep valid passes `valid()` |
| Diagnostics.ValidMissesOrder | src/main/java/org/apanchenko/persistent/RbTree.java:721-747 | `valid()` accepts 2(1(-, 3), 4), which is not in hash order |
| Heap.RbTree.Empty | src/main/java/org/apanchenko/persistent/RbTree.java:38-41 | `RbTree()` is the head of the empty version |
| Heap.RbTree.Leaf | src/main/java/org/apanchenko/persistent/RbTree.java:44-47 | a new leaf is valid, red and holds the key |
| Heap.RbTree.Make | src/main/java/org/apanchenko/persistent/RbTree.java:50-55 | the four-field constructor sets the four fields |
| Heap.RbTree.Copy | src/main/java/org/apanchenko/persistent/RbTree.java:61-66 | a clone has the same four fields and shares both subtrees |
| Heap.RbTree.RotateLeft | src/main/java/org/apanchenko/persistent/RbTree.java:281-291 | only this node, its right child and the parent change; the parent slot that held this node, and only that slot, now holds the right child; the inner grandson moves under this node |
| Heap.RbTree.RotateRight | src/main/java/org/apanchenko/persistent/RbTree.java:300-310 | the mirror image of `RotateLeft` |
| Heap.RbTree.RotateLeftValid | src/main/java/org/apanchenko/persistent/RbTree.java:281-291 | on a valid node the promoted child stands for the value `Trees.RotateLeft` computes, over the same nodes |
| Heap.RbTree.RotateRightValid | src/main/java/org/apanchenko/persistent/RbTree.java:300-310 | the mirror image of `RotateLeftValid` |
| Heap.RbTree.SwapSon | src/main/java/org/apanchenko/persistent/RbTree.java:694-702 | the slot that held `son` holds `newSon`, and the result says whether it is the left one; the node then stands for its old value with that child replaced |
| Heap.RbTree.RemoveOnlySonAsWritten | src/main/java/org/apanchenko/persistent/RbTree.java:451-465 | as written: the son itself, a node of the old version, takes its grandson's key and drops the grandson |
| Heap.RbTree.RemoveOnlySon | src/main/java/org/apanchenko/persistent/RbTree.java:451-465 | corrected: only this copy changes, and it stands for the value `Deletion.RemoveSon` and `Deletion.Reattach` compute |
| Heap.RbTree.Collapsed | src/main/java/org/apanchenko/persistent/RbTree.java:453-457 | a new leaf with the son's colour and its grandson's key, standing for `Deletion.RemoveSon` |
| Heap.RbTree.InsertFix | src/main/java/org/apanchenko/persistent/RbTree.java:241-272 | only clones change; the parent slot holds a node standing for the value `Insertion.InsertFix` computes |
| Heap.RbTree.Recolor | src/main/java/org/apanchenko/persistent/RbTree.java:243-249 | this node turns red over black copies of its two sons |
| Heap.RbTree.BlackSons | src/main/java/org/apanchenko/persistent/RbTree.java:246-247 | two new black copies of the sons, sharing their sons |
| Heap.RbTree.FixLeft | src/main/java/org/apanchenko/persistent/RbTree.java:252-260 | the parent slot holds a node standing for `Insertion.FixLeft` of the old value |
| Heap.RbTree.FixRight | src/main/java/org/apanchenko/persistent/RbTree.java:263-271 | the mirror image of `FixLeft` |
| Heap.RbTree.PromoteLeft | src/main/java/org/apanchenko/persistent/RbTree.java:255-259 | a black copy of the left son is rotated into the parent slot, over this node painted red |
| Heap.RbTree.PromoteRight | src/main/java/org/apanchenko/persistent/RbTree.java:266-270 | the mirror image of `PromoteLeft` |
| Heap.RbTree.LiftLeft | src/main/java/org/apanchenko/persistent/RbTree.java:253-254 | the left son is rotated left under this node, which then stands for that rotation |
| Heap.RbTree.LiftRight | src/main/java/org/apanchenko/persistent/RbTree.java:264-265 | the mirror image of `LiftLeft` |
| Heap.RbTree.RedOverLeft | src/main/java/org/apanchenko/persistent/RbTree.java:256-257 | this node turns red over a black copy of its left son |
| Heap.RbTree.RedOverRight | src/main/java/org/apanchenko/persistent/RbTree.java:267-268 | the mirror image of `RedOverLeft` |
| Heap.RbTree.InsertCopy | src/main/java/org/apanchenko/persistent/RbTree.java:201-236 | nothing existing changes; the result is `this` exactly when the key is on the search path; otherwise a fresh clone standing for `Insertion.InsertCopy` |
| Heap.RbTree.InsertLeft | src/main/java/org/apanchenko/persistent/RbTree.java:206-220 | the descent into the left son: nothing existing changes, and the result stands for the value with the new left child |
| Heap.RbTree.InsertRight | src/main/java/org/apanchenko/persistent/RbTree.java:221-234 | the mirror image of `InsertLeft` |
| Heap.RbTree.CopyLeft | src/main/java/org/apanchenko/persistent/RbTree.java:211-219 | the recursive left case: `this` when the son is unchanged, otherwise a fresh clone |
| Heap.RbTree.CopyRight | src/main/java/org/apanchenko/persistent/RbTree.java:226-233 | the mirror image of `CopyLeft` |
| Heap.RbTree.FixedLeft | src/main/java/org/apanchenko/persistent/RbTree.java:213-216 | a fresh clone over the new left son, repaired by `insertFix`, standing for the intended value |
| Heap.RbTree.FixedRight | src/main/java/org/apanchenko/persistent/RbTree.java:228-231 | the mirror image of `FixedLeft` |
| Heap.RbTree.Repair | src/main/java/org/apanchenko/persistent/RbTree.java:216 | `insertFix` on the new son under the clone; only clones change |
| Heap.RbTree.Seal | src/main/java/org/apanchenko/persistent/RbTree.java:216 | after the repair the clone stands for its value with the repaired son |
| Heap.RbTree.Insert | src/main/java/org/apanchenko/persistent/RbTree.java:176-196 | a null key is an error; the result heads the version `Insertion.Insert` computes; it is this very head exactly when `findNode` finds the key; a new head is fresh; this version is unchanged |
| Heap.RbTree.Planted | src/main/java/org/apanchenko/persistent/RbTree.java:181-185 | a fresh head over a single black node holding the key |
| Heap.RbTree.Rerooted | src/main/java/org/apanchenko/persistent/RbTree.java:189-192 | a fresh head over the repaired root, painted black |
| Heap.RbTree.Rooted | src/main/java/org/apanchenko/persistent/RbTree.java:191 | the head's root, repaired by `insertFix`, stands for the intended value |
| Heap.RbTree.BlackRoot | src/main/java/org/apanchenko/persistent/RbTree.java:192 | the head then holds its root painted black |
| Heap.RbTree.PaintBlack | src/main/java/org/apanchenko/persistent/RbTree.java:192 | a node painted black stands for its value painted black |
| Heap.Colors | src/main/java/org/apanchenko/persistent/RbTree.java:672-674 | `isRed` on the sons and grandsons of a valid node sees the colours of its value |
| Heap.Headed | src/main/java/org/apanchenko/persistent/RbTree.java:32-34 | a black node with no key, over a valid left subtree, is a head for that root |
| Heap.Unmoved | src/main/java/org/apanchenko/persistent/RbTree.java:18-24 | a head none of whose nodes changed still holds the same version |
| Heap.Unchanged | src/main/java/org/apanchenko/persistent/RbTree.java:18-24 | a subtree none of whose nodes changed still stands for the same value |
| Heap.Repainted | src/main/java/org/apanchenko/persistent/RbTree.java:192 | a node whose colour alone changed stands for its value in the new colour |
| Heap.Recopied | src/main/java/org/apanchenko/persistent/RbTree.java:257 | a new node with an old node's key and sons stands for its value in the new colour |
| Heap.Recolored | src/main/java/org/apanchenko/persistent/RbTree.java:245-247 | a node over black copies of its sons stands for its value with both sons painted black |
| Heap.Replaced | src/main/java/org/apanchenko/persistent/RbTree.java:694-702 | a node with one son replaced stands for its value with that child replaced |
| Heap.Sample | src/main/java/org/apanchenko/persistent/RbTree.java:451-455 | the version 4(2(-, 3), 6), where node 2 has one son |
| Heap.SharedSonChanged | src/main/java/org/apanchenko/persistent/RbTree.java:457-462 | on any head holding 4(2(-, 3), 6), removing 2 as written rewrites that version's own node 2: before it held 2, afterwards it holds 3 and has no son |
| Heap.SharedSonKept | src/main/java/org/apanchenko/persistent/RbTree.java:451-465 | the corrected step leaves the sample version as it was, and the copy stands for 4(3, 6) |
| Heap.Removed | src/main/java/org/apanchenko/persistent/RbTree.java:369-401 | the corrected one-son step on a copy of the root stands for the value the value layer computes |
| Heap.RootCopy | src/main/java/org/apanchenko/persistent/RbTree.java:369 | a copy of the root is valid and stands for the same value |

## Left out

- The object layer does not model the following operations as pointer
  rewiring: `remove`, `removeOnSon`, `removeRightmost`, the zero-son cases of
  `removeSon`, `removeFix` and `removeCase1`..`removeCase6`. Their contracts
  are stated on values (module `Deletion`) because the clone bookkeeping would
  cost too much to prove here. So the model does not capture their in-place
  writes, their sharing of nodes, or their aliasing. The exception is
  Finding 4, which depends on aliasing and is modelled on objects.
- The mutable `Fixup` object is the `required` field of the returned
  `Deletion.Fixup` value.
- `find`, `size()`, `hashCode()`, `valid()` and `empty()` are modelled on the
  value a version stands for (`Model()` / `Root()`), not as methods over the
  objects.
- `toString()` is debug output and is not part of this model.
- The element's `hashCode()` and `equals` are foreign calls. They are the
  parameter `h` and Dafny's `==`.
- The benchmark file is not part of this model. Neither are the static
  `empty()`, `isEmpty()` and `contains()` the tests call, which
  `RbTree.java` does not define.
- The Java `assert` statements are preconditions. `NullPointerException` is
  the `NullKey` result. Garbage collection and concurrency are not modelled.
- Heap.RbTree.Insert: requires the version's colour rules (`RB(Root())`).
  Every version built by insertion satisfies them
  (`Insertion.InsertRootValid`); the source itself does not check them.
- Heap.RbTree.InsertCopy: requires `RB(Model())` for the same reason.
- Heap.RbTree.InsertLeft, Heap.RbTree.InsertRight, Heap.RbTree.CopyLeft, Heap.RbTree.CopyRight:
  require `RB(Model())` for the same reason.
- Deletion.RemoveCase3: keeps the in-order keys only when the brother has a
  son on the deleted side. The other branch (lines 563-566) rotates with the
  wrong parent. It is unreachable in a valid tree, since a red brother has
  two sons or none.
- Deletion.RemoveRightmost, Deletion.RemoveMatch, Deletion.RemoveOnSon:
  these use the corrected `RemoveSon` (line 442 as `swapSon(son, null)`),
  not line 442 as written. The chain as written is `Deletion.RemoveAsWritten`
  with `Deletion.RemoveRightmostAsWritten`, `Deletion.RemoveBothAsWritten` and
  `Deletion.RemoveOnSonAsWritten`.
- Deletion.Remove: it is the corrected `remove`. It uses the corrected
  `RemoveSon` and is guarded by `findNode` (Findings 2 and 3). The source's
  `remove` is `Deletion.RemoveAsWritten`.
- Deletion.RemoveRightmostValid, Deletion.MatchRightmostValid,
  Deletion.MatchSonValid, Deletion.RemoveMatchValid, Deletion.RemoveOnSonValid,
  Deletion.RemoveSpec, Deletion.RemoveUnique, Deletion.RemoveFound,
  Deletion.RemoveInjective, Deletion.RemoveAllSpec, Deletion.InsertThenRemoveAll,
  Deletion.InsertThenRemove: these are proved of the corrected chain. For the
  chain as written the model proves only what it still keeps: validity and
  at least one key fewer (`Deletion.RemoveAsWrittenValid`), not "exactly the
  key".
- Trees.Size: `size()` returns a 32-bit `int`, while `Trees.Size` is
  unbounded. The two differ only for a version of more than 2^31 - 1 nodes,
  so the wrap-around of `size()` is not modelled.
- Diagnostics.HashCode: the contract states only the 32-bit range. The value
  is stated by `Diagnostics.HashCodeRaw`.

## Findings

| source | as written | input that shows it | evidently intended | confidence | as-written member | corrected member |
|---|---|---|---|---|---|---|
| src/main/java/org/apanchenko/persistent/RbTree.java:707-715 | on equal hashes `findNode` searches only right, but rotations in `insertFix` can move an equal-hash key into the left subtree | a hash that is the same for every key: insert 1, 2, 3, then `find(1)` returns null and `insert(1)` stores 1 a second time | a stored key is always found | not executed | Insertion.CollisionLosesKey | Lookup.FindFixedComplete |
| src/main/java/org/apanchenko/persistent/RbTree.java:347-353 | `grandSon == null` is read as "key found", but it is also null when the child on the search side is missing | removing 2 from the version holding only 1 (hash = value) removes 1 | removing an absent key returns the same version | not executed | Deletion.AbsentKeyRemoved | Deletion.RemoveSpec |
| src/main/java/org/apanchenko/persistent/RbTree.java:442 | removing a red leaf runs `left = right = null`, which also clears its brother | removing 1 from 2(1, 3), where 1 and 3 are red leaves, gives 2 alone; removing 4 from 4(2(1, 3), 6) gives 3(2, 6), without 1 | `swapSon(son, null)`: only the leaf is removed | not executed | Deletion.RedLeafDropsBrother | Deletion.RemoveSonValid |
| src/main/java/org/apanchenko/persistent/RbTree.java:457-462 | the branch for a son with one child writes `key`, `left` and `right` of `son` itself, and `son` was never cloned, so the old version changes | removing 2 from 4(2(-, 3), 6): afterwards the old version's node 2 holds 3 and has no son | a new node replaces `son` in the copy; old versions never change | not executed | Heap.SharedSonChanged | Heap.SharedSonKept |
