# Consistent hash ring over an unbalanced binary search tree

This project models `chr.py`, which implements a consistent hash ring on top of
a plain (unbalanced) binary search tree.

- **`SubTree`** is a node. It holds a value and that value's hash, which is its
  key, plus optional left and right children. It supports:
  - insertion, where a key already present is silently ignored;
  - a minimum search along the left links;
  - an in-order-successor helper;
  - removal, which returns the node that takes the removed node's place;
  - membership by key comparison;
  - in-order iteration.
- **`ConsistentHashRing`** wraps an optional head node and offers
  `add_node`, `remove_node`, `find_best_match`, `__iter__` and `__len__`, each
  delegating to the head. Its `find_best_match(value)` returns:
  - the value whose key equals the target hash, if there is one;
  - otherwise the successor met on the descent, the nearest key above the
    target, but only when that value is truthy;
  - otherwise the value with the minimum key, which is the wrap-around of the
    ring.

The model comes in two layers.

- **Module `KeyTree`** is the abstract layer. It has:
  - a datatype `Tree<V>` whose nodes carry a value and a separate key field;
  - functions stating what each node operation computes: `Insert`, `Leftmost`,
    `Remove`, `Walk` (the descent loop) and `BestMatch`;
  - the invariants `Ordered` (strict key order) and `Consistent` (every key
    is the hash of its node's value).
- **Module `Chr`** is the imperative layer. Its classes `SubTree` and
  `ConsistentHashRing` have the source's fields and update them in place.
  - Each class keeps a ghost `Repr` footprint and a ghost `Model` tree, and
    every method is proved against the `KeyTree` functions.
  - Both loops of the source are `while` loops with invariants: the minimum
    search and the best-match descent.

The lemma modules are:
- `InsertProps`: insertion and runs of `add_node`;
- `RemoveProps`: removal;
- `TraversalProps`: traversal and length;
- `LookupProps`: minimum, successor and best match;
- `Findings`: two defects of the source, each shown on a concrete input, with
  the intended behaviour proved.

Parameters stand in for Python built-ins. The hash is a parameter
`hash: V -> int`, which the ring keeps as a constant field. The truthiness of a
value is a parameter `truthy: V -> bool` of `FindBestMatch`.

Three behaviours of the code worth knowing; the model follows the code:
- The ring defines no `__contains__`.
- Iterating or measuring an empty ring raises `TypeError` (`iter(None)`). It
  does not yield an empty sequence or a length of 0; the model returns
  `Err(TypeError)`.
- A two-child removal copies only the successor's value into the node, not
  its key (see Findings).

## Model

| member | source | states |
|---|---|---|
| `Chr.SubTree.constructor` | chr.py:21-29 | a childless node holding the value, keyed by the value's hash |
| `Chr.SubTree.AddChild` | chr.py:31-55 | the node's tree becomes `Insert` of the old tree; the footprint only gains fresh nodes and the node stays well formed |
| `Chr.SubTree.FindMinimum` | chr.py:57-70 | the loop returns the value of the leftmost node, whose key is the least key of an ordered subtree |
| `Chr.SubTree.FindInOrderSuccessor` | chr.py:72-86 | `None` exactly when there is no right child; otherwise the leftmost value of the right subtree, which in an ordered tree is the entry with the least key above the node's key |
| `Chr.SubTree.RemoveValue` | chr.py:88-125 | the returned node (or None) carries `Remove` of the old tree, is well formed and uses only nodes of the old footprint |
| `Chr.SubTree.RemoveFromLeft` | chr.py:123 | only the left subtree is replaced, by its removal result |
| `Chr.SubTree.RemoveFromRight` | chr.py:118-124 | only the right subtree is replaced, by its removal result |
| `Chr.SubTree.Contains` | chr.py:133-143 | true only for a stored key, and on an ordered tree true exactly when the value's hash is a stored key |
| `Chr.SubTree.Values` | chr.py:145-155 | the values of the left subtree, then the node's own value, then the right subtree's |
| `Chr.ConsistentHashRing.constructor` | chr.py:170-171 | empty without an initial value, otherwise a single node holding it |
| `Chr.ConsistentHashRing.AddNode` | chr.py:173-180 | the ring's tree becomes `Insert` of the old one; its keys gain exactly the value's hash and the tree stays ordered |
| `Chr.ConsistentHashRing.RemoveNode` | chr.py:182-189 | the ring's tree becomes `Remove` of the old one and stays ordered, using only nodes it already had; an empty ring stays empty; a value whose hash is not a key changes nothing |
| `Chr.ConsistentHashRing.FindBestMatch` | chr.py:191-239 | the loop computes `BestMatch`: None exactly on an empty ring; an exact key match yields that key's value; with all keys below the target, the minimum-key value; otherwise the successor when truthy and the minimum-key value when not |
| `Chr.ConsistentHashRing.Iterate` | chr.py:241-243 | `TypeError` exactly on an empty ring; otherwise the in-order values, whose keys strictly increase |
| `Chr.ConsistentHashRing.Length` | chr.py:248-252 | `TypeError` exactly on an empty ring; otherwise the number of stored keys |
| `KeyTree.InOrder` | chr.py:145-155 | the values of the left subtree, then the node's value, then the right subtree's |
| `KeyTree.Insert` | chr.py:31-55 | a new leaf at the search position of the value's hash, or the tree unchanged when that key is stored |
| `KeyTree.Remove` | chr.py:88-125 | the subtree that takes the node's place: a leaf goes, a one-child node is replaced by its child, a two-child node takes its successor's value under its old key, and a key mismatch recurses into both children |
| `KeyTree.Walk` | chr.py:212-230 | the descent: stop at an equal key, go left past a larger key taking it as candidate when strictly closer, go right past a smaller one |
| `KeyTree.BestMatch` | chr.py:191-239 | None on an empty tree, the exact match, the truthy candidate, or else the leftmost value |
| `KeyTree.Leftmost` | chr.py:65-70 | the leftmost entry is an entry of the tree whose key, under order, is the least key |
| `KeyTree.KeySeq` | chr.py:145-155 | the keys in traversal position: one per traversed value, exactly the stored keys, strictly increasing under order |
| `InsertProps.InsertKeys` | chr.py:38-55 | insertion adds the value's hash to the key set and no other key |
| `InsertProps.InsertOrdered` | chr.py:43-55 | insertion keeps the strict search-tree order |
| `InsertProps.InsertPresent` | chr.py:38-41 | a value whose hash is already a key leaves an ordered tree unchanged (duplicates are excluded) |
| `InsertProps.InsertConsistent` | chr.py:28 | new nodes are keyed by their value's hash, so hash consistency is kept |
| `InsertProps.InsertNewContents` | chr.py:43-55 | a value with a new hash is added, once, to the traversal's multiset of values |
| `InsertProps.InsertContents` | chr.py:31-55 | the traversal is unchanged for a present key and gains exactly the value for an absent key |
| `InsertProps.InsertAllPreserves` | chr.py:173-180 | any run of insertions keeps order and hash consistency; the keys become the old keys plus the inserted hashes |
| `InsertProps.InsertMembers` | chr.py:43-55 | after an insertion the traversal holds only the old values and the inserted one |
| `InsertProps.InsertAllMembers` | chr.py:173-180 | after a run of insertions the traversal holds only the old values and the inserted ones |
| `InsertProps.InsertAllNewContents` | chr.py:173-180 | inserting values with pairwise different hashes, none already a key, adds exactly those values to the traversal's multiset |
| `InsertProps.SortedAfterInserts` | tests.py:52-58 | a ring built from empty traverses only inserted values, in strictly increasing hash order, one per distinct inserted hash; with pairwise different hashes its traversal is a permutation of the inserted values |
| `InsertProps.InsertAboveSpine` | chr.py:43-48 | a value above every key of a right chain is appended at the chain's end |
| `InsertProps.AscendingInserts` | tests.py:52-58 | adding values in increasing hash order builds a right chain whose traversal is exactly the added sequence |
| `RemoveProps.RemoveKeys` | chr.py:88-125 | removal never introduces a key |
| `RemoveProps.RemoveOrdered` | chr.py:88-125 | removal keeps the strict search-tree order |
| `RemoveProps.RemoveAbsent` | chr.py:121-125 | with no node keyed by the value's hash, removal returns the tree unchanged |
| `RemoveProps.LeftmostFirst` | chr.py:145-151 | the leftmost value is the first value traversed |
| `RemoveProps.RemoveMatchContents` | chr.py:97-119 | removing at a key match drops exactly the node's value from the traversal, given the successor's removal below |
| `RemoveProps.RemoveContents` | chr.py:88-125 | on an ordered, hash-consistent tree removal takes exactly the values with the removed hash out of the traversal and keeps the rest in order |
| `RemoveProps.RemoveAllSpine` | chr.py:106-107 | removing a right chain's values in order empties it |
| `RemoveProps.AscendingInsertsThenRemoves` | tests.py:72-79 | values added in increasing hash order and removed in the same order leave an empty ring |
| `TraversalProps.CountIsKeyCount` | chr.py:248-252 | an ordered tree traverses exactly one value per stored key |
| `TraversalProps.HashesAreKeySeq` | chr.py:145-155 | under hash consistency the hashes of the traversed values are the key sequence |
| `TraversalProps.SortedTraversal` | chr.py:145-155 | an ordered, consistent tree traverses in strictly increasing hash order, and its hashes are exactly its keys |
| `LookupProps.RightMinimumIsSuccessor` | chr.py:72-86 | the minimum of the right subtree is the entry with the least key above the node's key |
| `LookupProps.WalkFindsKey` | chr.py:212-216 | the descent stops at the node holding a stored target key |
| `LookupProps.WalkAllBelow` | chr.py:228-230 | with every key below the target the descent only goes right and keeps its candidate |
| `LookupProps.WalkSuccessor` | chr.py:212-230 | without an exact match the descent ends holding the least-key-above entry, or no candidate when every key is below the target |
| `LookupProps.LookupExact` | chr.py:214-216 | an exact key match returns the value stored under that key |
| `LookupProps.LookupWrap` | chr.py:232-239 | with every key below the target the minimum-key value is returned (wrap-around) |
| `LookupProps.LookupSuccessor` | chr.py:235-239 | without an exact match the successor is returned when truthy, otherwise the minimum-key value |
| `LookupProps.LookupBelowAll` | tests.py:107-110 | a target below every key gets the minimum-key value |
| `LookupProps.LookupCases` | chr.py:191-239 | all lookup cases together: None exactly on an empty tree, exact match, wrap-around, successor |
| `Findings.StaleKeyAfterRemove` | chr.py:113-119 | inserting 2, 1, 3 and removing 2 leaves a node keyed 2 holding 3; removing 3 then changes nothing |
| `Findings.RemoveIntendedInOrder` | chr.py:113-119 | moving the successor's key along with its value does not change the traversal |
| `Findings.RemoveIntendedKeys` | chr.py:113-119 | the intended removal takes exactly the removed hash out of the keys |
| `Findings.RemoveIntendedInvariants` | chr.py:113-119 | the intended removal keeps order and hash consistency |
| `Findings.RemoveIntendedCorrect` | chr.py:88-125 | the intended removal keeps both invariants, removes the hash from the keys and the values with it from the traversal |
| `Findings.FalsySuccessorSkipped` | chr.py:235-239 | in a ring of -5, 0, 5 the lookup of -3 returns -5 although 0 is the least key above -3 |
| `Findings.BestMatchIntendedCorrect` | chr.py:191-239 | with the candidate tested by `is not None`, the lookup returns None exactly on an empty tree, the exact match, the successor whenever there is one, and otherwise the minimum-key value |

## Left out

- `__repr__`, `__str__` and `__eq__` are left out: they format and compare strings and take no part in the tree logic.
- Python's `hash` is a parameter. CPython's particular values are not modelled, such as `hash(-1) == -2`, which leads tests.py to drop -1.
- Python truthiness is a parameter of `FindBestMatch`.
- `__iter__` is a generator. The model returns the whole traversal as a sequence, so laziness is not modelled, nor is changing the tree during iteration.
- The `left` and `right` arguments of `SubTree.__init__` are left out: no caller passes them.
- `float("inf")`, the initial best-candidate key, is modelled as an absent candidate (`None`).
- Python's recursion limit on deep trees is not modelled.
- A hash that raises (an unhashable value) is not modelled.
- The ring's `__contains__` is left out because the source does not define one. Membership is modelled on `SubTree` only.
- binary_search_tree.py is not part of this model.
- `Chr.SubTree.Contains`: the exact if-and-only-if with key membership is stated only for an ordered tree. On an unordered tree the descent can miss a key, which is the source's behaviour too.
- `RemoveProps.RemoveContents`: stated for trees whose keys are the hashes of their values. After a two-child removal (Finding 1) the ring's tree is no longer such a tree, so `Chr.ConsistentHashRing.Valid` keeps order only.
- `Chr.ConsistentHashRing.FindBestMatch`: the successor case is stated for a hash-consistent tree, for the same reason.

## Findings

In the Findings table, "evidently intended" is what the code's documentation
and comments promise. The classes in `Chr` follow the code as written. The
corrected definitions sit beside it in module `Findings` with their properties
proved.

| source | as written | input that shows it | evidently intended | confidence | as-written member | corrected member |
|---|---|---|---|---|---|---|
| chr.py:117-118 | a two-child removal copies the successor's value into the node but keeps the node's old key | insert 2, 1, 3 (integers hash to themselves), remove 2: the root holds 3 under key 2, key 2 is still stored, and a later remove of 3 leaves 3 in the ring | the successor's key moves with its value, so the removed hash disappears and every key stays its value's hash | high (not executed) | `Findings.StaleKeyAfterRemove` | `Findings.RemoveIntendedCorrect` |
| chr.py:235 | the successor candidate is tested for truthiness (`if best_match:`), so a falsy successor is skipped | ring of -5, 0, 5, lookup of -3: returns -5, but 0 is the nearest key above -3 | test the candidate with `is not None`, as the comment at chr.py:232-233 says | high (not executed) | `Findings.FalsySuccessorSkipped` | `Findings.BestMatchIntendedCorrect` |
