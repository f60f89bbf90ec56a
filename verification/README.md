# Skip list, modelled in Dafny

This project models `SkipList<Key>` from `include/skip_list.hpp`: an ordered set of unique keys. The structure is a sentinel head node plus per-level forward links. `insert`, `erase` and `contains` share a top-down descent that records each level's predecessor in `update`. `insert` draws a level from `randomLevel`, grows the head when the level exceeds the current height, and splices the new node after its predecessors. `erase` unlinks the node wherever its predecessor points at it, then drops empty top levels. The iterator walks level 0. The move constructor and move assignment hand the nodes over and leave the source a fresh empty list of height 1.

The pointer graph becomes an arena (module `Arena`, file `state.dfy`):
- `SkipList(nodes, maxLevel, maxAllowedLevel, probability)`: `nodes[0]` is the head, and a link is a node index, with `-1` for `nullptr`.
- `Node(key, next)`: the link array's length is the node's level.

Each operation takes a list value and returns the new one. A ghost sequence `order` names the listed nodes in level-0 order. `Valid(s, order)` is the class invariant:
- the head has `maxLevel` links and `1 <= maxLevel <= maxAllowedLevel`;
- every listed node has between 1 and `maxLevel` levels;
- keys strictly ascend along `order`;
- on every level, each node present links to the next node of `order` present on that level, or to null when there is none.

Level `l` therefore holds exactly `LevelNodes(Heights(s), order, l)`, the nodes of `order` taller than `l`. The key sequence is `Keys(s, order)` and the key set is `Elements(s, order)`. `Arena.OrderUnique` shows that a list admits only one valid order, so these are functions of the list alone.

Randomness is an input. `RandomLevel` takes the outcome of each uniform draw (`draws(n)`: the n-th draw fell below the probability). `Insert` takes the drawn level, constrained by `RandomLevel`'s contract. `InsertDrawn` chains the two. Object identity, which move assignment compares, is modelled by a store `map<ObjId, SkipList>`. A null head, which exists only inside a move before `resetToEmpty`, is an arena with no nodes.

Modules:
- `Arena` (`state.dfy`): the data model and invariant.
- `Search` (`search.dfy`): the descent and `contains`.
- `Insertion` (`insert.dfy`).
- `Erasure` (`erase.dfy`).
- `RandomLevels` (`random_level.dfy`).
- `Iteration` (`iteration.dfy`): the iterator and the per-level walk of the level dump.
- `Levels` (`levels.dfy`): the per-level effect of insert and erase.
- `Lifecycle` (`lifecycle.dfy`): the constructor, `resetToEmpty` and the moves.
- `Scenarios` (`scenarios.dfy`): the integer demonstrations of `tests/test.cpp`.

## Model

| member | source | states |
|---|---|---|
| Search.Descend | include/skip_list.hpp:263-272 | For every level `l`, `update[l]` is the last node on level `l` whose key is below `k` (the head when none). The level-0 successor of `update[0]` is the first node whose key is at least `k`, or null. Every key before the position `p` is below `k` and every key from `p` on is at least `k`. |
| Search.MemberAtSplit | include/skip_list.hpp:272-274 | The candidate `update[0]->next[0]` holds `k` exactly when `k` is in the list: the duplicate test of `insert` and the hit test of `erase` and `contains` are membership tests. |
| Search.Contains | include/skip_list.hpp:330-339 | Returns true if and only if `k` is one of the list's keys. The list is an input and is not changed. |
| Insertion.Insert | include/skip_list.hpp:262-295 | A present key leaves the list, and so every link and the height, exactly as it was. A fresh key yields a valid list with one more node, holding exactly the new node's `lvl` levels. The key sequence gains `k` at its sorted position, and no other node changes level or key. The height becomes `max(lvl, height)`. The key set becomes old keys plus `{k}`, the cap and probability are kept, and a non-empty top level stays non-empty. |
| Insertion.InsertDrawn | include/skip_list.hpp:274-278 | `insert` with the level drawn by `randomLevel`: the list stays valid and its key set gains exactly `k`. A duplicate changes nothing. A fresh key raises the height by at most one. |
| Insertion.GrowHeadValid | include/skip_list.hpp:280-287 | Resizing the head's links to the drawn level with nulls and raising the height keeps the invariant. Afterwards the head's link count equals the new height, which is at most the cap, and every other node keeps its levels and key. |
| Insertion.ExtendUpdate | include/skip_list.hpp:282-285 | The update array is resized to the new level. The recorded predecessors are kept, and on every level the list did not have yet the predecessor is the head. |
| Insertion.SpliceAll | include/skip_list.hpp:291-294 | After the splice loop, every level below the new node's level is linked with the new node at its sorted position. The levels above are linked as before, and no height or key changes. |
| Insertion.SpliceLevel | include/skip_list.hpp:291-294 | When the new node takes over its predecessor's link on level `i` and the predecessor then links to it, level `i` is linked in the order with the new node at its sorted position. |
| Insertion.KeysIns | include/skip_list.hpp:289-294 | Placing a node at position `p` puts its key between the keys before and after `p` in the key sequence. |
| Insertion.ElementsIns | include/skip_list.hpp:289-294 | Placing a node at position `p` adds exactly its key to the key set. |
| Insertion.InsertTight | include/skip_list.hpp:280-294 | If the top level was non-empty (or the height was 1) before an insertion, it still is afterwards. The witness is either the new node, when it reaches the new height, or the old tallest node. |
| Erasure.Erase | include/skip_list.hpp:298-327 | Returns true exactly when `k` was present. An absent key leaves the list unchanged. A present key is removed from its position, all other nodes keep their order, levels and keys, and the key set loses exactly `k`. The height never grows, and afterwards the top level is non-empty unless the height is 1. The cap and probability are kept. |
| Erasure.UnlinkLevel | include/skip_list.hpp:314-318 | On a level the removed node occupies, `update[i]->next[i]` is that node. Redirecting it to the node's successor leaves the level linked in the order without the node. |
| Erasure.SkipLevel | include/skip_list.hpp:314-318 | On a level the removed node does not occupy, `update[i]->next[i]` is not that node. The untouched level is already linked in the order without it. |
| Erasure.UnlinkStep | include/skip_list.hpp:314-318 | One pass of the unlink loop keeps the loop's invariant: the levels below `i + 1` are linked without the node, the levels above still include it, and heights and keys are unchanged. |
| Erasure.ShrinkStep | include/skip_list.hpp:321-324 | When the height is above 1 and the head's top link is null, dropping that link and lowering the height keeps the invariant and changes no other node. |
| Erasure.ElementsDel | include/skip_list.hpp:319 | Removing position `p` removes its key from the key sequence and exactly that key from the key set. |
| Erasure.UnlinkEnd | include/skip_list.hpp:314-319 | After the unlink loop has visited every level, the list is valid for the order without the removed node. |
| RandomLevels.RandomLevel | include/skip_list.hpp:253-259 | The level is at least 1, at most the cap (when the cap is at least 1) and at most the height plus 1. It is one more than the run of successful draws, stopped either by a failed draw or by one of the two caps. |
| Iteration.BeginIsFirst | include/skip_list.hpp:149-154 | `begin()` is the first node of the level-0 order. It equals `end()` exactly when the list is empty. |
| Iteration.AdvanceIsNext | include/skip_list.hpp:52-56 | `++it` from the node at position `j` reaches the node at position `j + 1`, or `end()` after the last. |
| Iteration.Walk | include/skip_list.hpp:49-64 | Iterating from `begin()` to `end()` and reading `*it` yields exactly the key sequence, which is strictly ascending. |
| Iteration.WalkLevel | include/skip_list.hpp:350-354 | Following level-`l` links from the head visits exactly the nodes taller than `l`, in level-0 order. |
| Iteration.LevelStructure | include/skip_list.hpp:27 | Level 0 holds every node. Level `l + 1` is level `l` with the nodes of height `l + 1` left out, so each level is a subsequence of the one below. |
| Iteration.LevelsNest | include/skip_list.hpp:27 | Filtering level `l` by "taller than `l + 1`" gives level `l + 1`. |
| Levels.InsertLevels | include/skip_list.hpp:289-294 | Level `l` before an insertion splits at position `p` into a prefix and a suffix; after it, level `l` is that prefix, then the new node when `l` is below its level, then that suffix. |
| Levels.EraseLevels | include/skip_list.hpp:314-318 | After an erasure, every level is the old level with the removed node taken out, and the other nodes keep their relative order. |
| Arena.TightWitness | include/skip_list.hpp:321 | On a valid list the head's top link is non-null exactly when some node is as tall as the height (or the height is 1), which is the stopping condition of the shrink loop. |
| Arena.OrderUnique | include/skip_list.hpp:33-57 | The level-0 chain from the head admits exactly one valid order, so the key sequence and key set of a list do not depend on the chosen abstraction. |
| Lifecycle.Create | include/skip_list.hpp:186-195 | A new list has height 1, a head whose single link is null, no keys, and the given cap and probability. It is valid whenever the cap is at least 1. |
| Lifecycle.ResetToEmpty | include/skip_list.hpp:360-365 | A list that still has a head is left unchanged. A headless list gets a single head with one null link per level of its height, and nothing else changes. |
| Lifecycle.MoveConstruct | include/skip_list.hpp:210-222 | The new object holds exactly the source's former list: the same nodes, links, per-node levels, height, cap and probability, hence the same valid order and keys. The source becomes a valid empty list of height 1 with a fresh head and keeps its cap and probability. No other object changes. |
| Lifecycle.MoveAssign | include/skip_list.hpp:225-250 | Self-assignment changes nothing. Otherwise the destination's old list is dropped and it holds exactly the source's former list (same nodes, links, height, cap and probability). The source becomes a valid empty list of height 1 with a fresh head, keeping its cap and probability, and no third object changes. |
| Scenarios.InsertAll | tests/test.cpp:11-13 | Inserting each key of a sequence, with any draws, keeps the list valid and adds exactly those keys to the key set. |
| Scenarios.EraseAll | tests/test.cpp:24-26 | Erasing each key of a sequence keeps the list valid and removes exactly those keys from the key set. |
| Scenarios.WalkSorted | include/skip_list.hpp:36 | Iterating a valid list yields exactly the strictly ascending listing of its key set. |
| Scenarios.AscendingUnique | include/skip_list.hpp:15 | Two strictly ascending key sequences with the same keys are equal. A list's traversal is therefore determined by its key set. |
| Scenarios.IntDemo | tests/test.cpp:6-36 | Whatever levels are drawn, after the eleven inserts `contains(5)` holds, `contains(7)` does not, and the traversal is 1 2 3 4 5 6 9. Erasing 10 reports false, and after erasing 5, 1 and 10 the traversal is 2 3 4 6 9. |
| Scenarios.MoveDemo | tests/test.cpp:61-75 | Whatever levels are drawn, the moved-to list 2 and then list 3 traverse 10 20, and the moved-from lists 1 and 2 are valid and traverse nothing. |

## Left out

- `printByLevels` (include/skip_list.hpp:340-358) writes to a stream. Only its per-level walk is modelled, as `Iteration.WalkLevel`. Its `!head_` branch is not modelled; `resetToEmpty` makes that branch unreachable.
- The random generator (`std::random_device`, `std::mt19937`, `uniform_real_distribution`) and the floating-point comparison with `probability_` are replaced by the boolean outcome of each draw. The probability is carried as a `real` and never read.
- The destructor and `delete` are not modelled, nor is the release of the destination's nodes in move assignment. Unlinked nodes stay in the arena, unreachable.
- Allocation failure and its exception safety are not modelled: allocation always succeeds.
- The iterator's type aliases, `operator->`, `operator==`, post-increment and default constructor are not modelled. Neither is use of an invalidated iterator, which is undefined behaviour.
- Keys are `int`: the generic `Key` needs only `<` and `==`, and the head's default-constructed key is 0. The string demonstration `demonstrateStringSkipList` (tests/test.cpp:38-59) is therefore not modelled.
- The copy operations are deleted in the source and do not exist in the model.
- `Insertion.Insert` takes the drawn level as an argument. The source draws it only after the duplicate test, so a duplicate insert consumes no draws; in the model (`Insertion.InsertDrawn`) the draws are an arbitrary function, so the order of drawing is not observable.
- RandomLevels.RandomLevel: the bound `level <= maxAllowedLevel` is stated only for a cap of at least 1. The constructor does not check its arguments, and with a cap below 1 the loop returns 1, above the cap. The comment at include/skip_list.hpp:166-171 promises the range 1..maxAllowedLevel. `Valid` requires `maxLevel <= maxAllowedLevel`, so such a list is outside the invariant; insertion is modelled only for lists satisfying it.
- Lifecycle.Create: validity is stated only for a cap of at least 1. The probability is not checked by the source and is not checked here.
- Lifecycle.MoveConstruct and Lifecycle.MoveAssign: the generator state and the distribution object, which the source also moves, are not part of the model.
- `contains` is modelled by running the same descent as `insert` and `erase` (`Search.Descend`) and ignoring the recorded predecessors. The source's `contains` runs the same loops without recording them.
