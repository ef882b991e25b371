# redis_rocksdb list commands in Dafny

This project models the list commands of `RedisRocksdb` (`src/redis_rocksdb/list_impl.rs`). It
is a Redis-style list kept in a key-value store as three kinds of record:

- a **head** (`QuickList`) stored under the list's own key: the keys of the leftmost and
  rightmost nodes, the element count `len_list` and the node count `len_node`;
- **nodes** (`QuickListNode`): left and right sibling keys, the key of the node's block
  (`values_key`), and the block's cached element count and encoded size;
- **blocks** (`ZipList`): the elements themselves, each a byte string.

The store is a `map<Key, Record>`, held by the class `ListImpl.RedisRocksdb` in its field `db`.
Each command works on a transaction: a local copy `tx` of the map that its puts and deletes
update. The command commits by assigning `tx` back to `db`. A command that fails part-way
returns before the commit, so the store is left unchanged.

The commands are methods with loops and invariants. Each is proved equal to a specification
function (`LindexSpec`, `LrangeSpec`, `PopSpec`, `LremSpec`, `ExistsSpec`). The properties are
proved about those functions:

- **Error and guard cases** are stated in the functions' own contracts.
- **Per-path store effects** are stated in `PopFacts` and `LremFacts`: which records a pop or a
  removal writes and deletes, as the code is written.
- **Behaviour on a list in good order** is stated in `ListFacts`, `PopFacts` and `LremFacts`.
  "In good order" is defined in `Chain`: linked from the head along right links, with cached
  counts that are right. Under that condition:
  - `lindex` finds the element at every index below the length;
  - `llen` counts the elements;
  - `lrange(0, -1)` returns every element, and on a one-node list `lrange` is the inclusive
    slice;
  - a pop that keeps its block returns the end element and keeps the list linked;
  - `lrem` with a positive count removes the leftmost `count` matches and keeps every other
    element in order.

Some lemmas state where, as written, the code leaves the list out of good order:

- a pop that keeps its block leaves the head's count stale;
- `lpop` emptying one node of several leaves the head's `left` naming a deleted node;
- `lrange` over several nodes never advances its `offset`, so it returns more than the window;
- `lrem` emptying a block takes one of four splice paths. After the walk, whenever something
  was removed, the head is written back under the list key, over whatever the path put there.
  What is committed, worked out on small lists in `LremPaths`:
  - the only node: the block and node are deleted, and the head comes back with count 0,
    naming the deleted node at both ends;
  - the last node: the left node's cleared right link is written under the list key and then
    overwritten, so the left node and the head's `right` still name the deleted node;
  - a middle node: the right node's right link is set to the left node, so the two nodes name
    each other as right neighbours;
  - the first node: its block is deleted but its node record is kept. The head's `left` moves
    on, and the list read from the head is still in good order.

Modules:

- `Wrappers`: Option and Result.
- `Width`: u32 and i32, truncation, wrap-around and the casts of the source.
- `ZipList`: the block operations the commands call.
- `Records`: records, typed reads and the right-link walk.
- `Positions`: running totals of node counts.
- `Chain`: a list in good order.
- `ListImpl`: the commands.
- `ListFacts`, `PopFacts`, `LremFacts`: the properties.
- `Samples`: small lists in good order, one element per node.
- `LremPaths`: what `lrem` commits on each splice path, worked out on the samples.

Where the code departs from the Redis commands it is named after, or from its own trait's doc
comments, the model follows the code:

- **lindex with a negative index.** Redis's LINDEX counts a negative index from the tail (`-1`
  is the last element). The code only checks `index >= len_list`. Its walk stops at the first
  node and asks the block for a negative position, so no element is found
  (`ListFacts.LindexNegative`).
- **lrem with a count that is not positive.** The doc comment of `lrem` in `src/list.rs` says
  `count < 0` removes from the tail and `count = 0` removes every match. The code's branches for
  those are empty, so it removes nothing and writes nothing.

## Model

| member | source | states |
|---|---|---|
| Width.Trunc32 | src/redis_rocksdb/list_impl.rs:117-118 | `as u32` keeps the low 32 bits: the value itself when it fits, and a value congruent modulo 2^32 otherwise |
| Width.Sub32 | src/redis_rocksdb/list_impl.rs:297 | u32 subtraction, as a release build computes it: the difference when it is not negative, otherwise wrapped by 2^32 |
| Width.AsI32 | src/redis_rocksdb/list_impl.rs:80 | `u32 as i32`: the same value when it is at most 2^31-1, otherwise a negative value congruent modulo 2^32 |
| Width.WrapAdd32 | src/redis_rocksdb/list_impl.rs:166-167 | i32 addition inside `count_index`: the sum when it fits, otherwise congruent modulo 2^32 |
| Width.AsUsize | src/redis_rocksdb/list_impl.rs:166-167 | `i32 as usize` on a 64-bit target: unchanged when not negative; a negative index becomes a bound above every i32 |
| ZipList.PopLeft | src/redis_rocksdb/list_impl.rs:95 | the returned element followed by the remaining block is the old block; an empty block stays empty |
| ZipList.PopRight | src/redis_rocksdb/list_impl.rs:325 | the remaining block followed by the returned element is the old block; an empty block stays empty |
| ZipList.Index | src/redis_rocksdb/list_impl.rs:45 | an element is found exactly when the position is in range, and it is the element at that position |
| ZipList.Range | src/redis_rocksdb/list_impl.rs:186 | the inclusive slice `[start, stop]` for in-range bounds; in general, its length and its elements are those of the positions that exist |
| ZipList.CountIndex | src/redis_rocksdb/list_impl.rs:166-167 | a non-negative index is kept; a negative one is added to the length, landing in `[0, len)` when it is at least `-len` |
| ZipList.CountInIndex | src/redis_rocksdb/list_impl.rs:182 | the local range returned lies inside the block and holds exactly the block positions whose list position is in the window, in both directions |
| ZipList.RemCounts | src/redis_rocksdb/list_impl.rs:227 | a block removal removes the smaller of the budget and the number of matches, and removes only matches |
| ZipList.RemNone | src/redis_rocksdb/list_impl.rs:230 | a block removal that removes nothing leaves the block unchanged, which is why nothing is written then |
| ZipList.RemKeepsOthers | src/list.rs:30-33 | elements other than the value all survive removal, in their order |
| ZipList.RemSplit | src/redis_rocksdb/list_impl.rs:223-228 | removal over two consecutive blocks, with the budget left over from the first, is removal over their concatenation: leftmost matches first |
| Records.HeadAt | src/redis_rocksdb/list_impl.rs:77 | `QuickList::get`: nothing for an absent key, the head stored there, or a decoding error for another kind of record |
| Records.NodeAt | src/redis_rocksdb/list_impl.rs:33 | `QuickListNode::get`: nothing, the node, or a decoding error |
| Records.BlockAt | src/redis_rocksdb/list_impl.rs:43 | `ZipList::get`: nothing, the block, or a decoding error |
| Records.ValuesOf | src/redis_rocksdb/list_impl.rs:42-43 | a node's block is found exactly when it has a `values_key` holding a block, and it is that block |
| Records.RightWalk | src/redis_rocksdb/list_impl.rs:36-40 | the walk along right links: every key visited holds the node read, each next key is the previous node's right link, and it stops for the reason it reports |
| Records.FollowWalk | src/redis_rocksdb/list_impl.rs:37-38 | reading the right neighbour of the walk's node `j` gives node `j + 1`, or the error the walk stopped on |
| Positions.LocateWithin | src/redis_rocksdb/list_impl.rs:44 | the local index `index - (it_index - len)` is below the found node's count, and not negative when `index` is not |
| Positions.LocateNegative | src/redis_rocksdb/list_impl.rs:34-36 | a negative index stops the walk at the first node and is passed on unchanged |
| ListImpl.LindexSpec | src/redis_rocksdb/list_impl.rs:25-32 | an absent list and `index >= len_list` are not-found errors; another kind of record is a decoding error; a head with no leftmost node is a none-error |
| ListImpl.IndexFrom | src/redis_rocksdb/list_impl.rs:34-40 | the `lindex` loop computes the element the walk to the first node whose running total exceeds `index` yields |
| ListImpl.ReadAt | src/redis_rocksdb/list_impl.rs:42-45 | once the walk has stopped at the node where the running total first exceeds `index`, reading that node's block at `index` minus the totals before it is the element the walk yields, or the read error |
| ListImpl.RedisRocksdb.Lindex | src/redis_rocksdb/list_impl.rs:25-48 | `lindex` answers `LindexSpec` and writes nothing |
| ListImpl.RedisRocksdb.Llen | src/redis_rocksdb/list_impl.rs:76-83 | -1 for an absent list, the head's `len_list` as an i32 otherwise, a decoding error for another kind of record; on a list in good order whose length fits an i32, the number of elements; writes nothing |
| ListImpl.LrangeSpec | src/redis_rocksdb/list_impl.rs:156-170 | an empty result for an absent list, for `len_list < 1` and for a resolved start above the resolved stop; a decoding error for another kind of record |
| ListImpl.PieceOf | src/redis_rocksdb/list_impl.rs:180-188 | the elements one node contributes: the local range `count_in_index` selects, read from its block |
| ListImpl.RangeFrom | src/redis_rocksdb/list_impl.rs:175-202 | the `lrange` loop gathers each node's piece, with `offset` always 0, up to the first node whose count exceeds the stop, or to the last node |
| ListImpl.RedisRocksdb.Lrange | src/redis_rocksdb/list_impl.rs:156-206 | `lrange` answers `LrangeSpec` and writes nothing |
| ListImpl.PopSpec | src/redis_rocksdb/list_impl.rs:85-127 | a pop on an absent list is a not-found error; a successful pop deletes keys but adds none, and leaves a head under the list key |
| ListImpl.RedisRocksdb.Lpop | src/redis_rocksdb/list_impl.rs:85-127 | `lpop` commits `PopSpec` from the left end |
| ListImpl.RedisRocksdb.Rpop | src/redis_rocksdb/list_impl.rs:315-357 | `rpop` commits `PopSpec` from the right end |
| ListImpl.RedisRocksdb.Pop | src/redis_rocksdb/list_impl.rs:86-126 | the shared pop body, with its puts and deletes on the transaction, commits `PopSpec` |
| ListImpl.RemStep | src/redis_rocksdb/list_impl.rs:224-275 | one node of `lrem`: the running total only grows and stays within the budget; nothing changes when nothing is removed; of the head being edited, only `left` can change |
| ListImpl.RemWalk | src/redis_rocksdb/list_impl.rs:223-286 | the `lrem` walk stays within the budget, and it stops only when the budget is spent or at a node with no right neighbour |
| ListImpl.LremSpec | src/redis_rocksdb/list_impl.rs:208-304 | 0 and no write for an absent list or `count <= 0`; never more than `count` removed; nothing written when 0 is removed; otherwise the head is written back with `len_list` lowered by the number removed |
| ListImpl.RemAt | src/redis_rocksdb/list_impl.rs:224-275 | the imperative node step equals `RemStep` |
| ListImpl.RemFrom | src/redis_rocksdb/list_impl.rs:223-286 | the `lrem` loop equals `RemWalk` |
| ListImpl.RedisRocksdb.Lrem | src/redis_rocksdb/list_impl.rs:208-304 | `lrem` commits `LremSpec` |
| ListImpl.ExistsSpec | src/redis_rocksdb/list_impl.rs:145-147 | an absent list answers 0 and writes nothing; another kind of record is a decoding error; a nonzero answer needs a stored head |
| ListImpl.RedisRocksdb.Guarded | src/redis_rocksdb/list_impl.rs:145-152 | the shared guard body commits `ExistsSpec` |
| ListImpl.RedisRocksdb.LpushExists | src/redis_rocksdb/list_impl.rs:144-153 | `lpush_exists` commits `ExistsSpec` with the left push |
| ListImpl.RedisRocksdb.RpushExists | src/redis_rocksdb/list_impl.rs:378-387 | `rpush_exists` commits `ExistsSpec` with the right push |
| ListImpl.RedisRocksdb.LinsertBefore | src/redis_rocksdb/list_impl.rs:49-60 | `linsert_before` commits `ExistsSpec` with an insert to the left of the pivot |
| ListImpl.RedisRocksdb.LinsertAfter | src/redis_rocksdb/list_impl.rs:62-74 | `linsert_after` commits `ExistsSpec` with an insert to the right of the pivot |
| ListFacts.LindexFinds | src/redis_rocksdb/list_impl.rs:25-48 | on a list in good order whose length fits an i32, `lindex` answers the element at every index from 0 below the length |
| ListFacts.IndexAlongFinds | src/redis_rocksdb/list_impl.rs:34-45 | along a walk whose node counts are right, the running-total search yields the element at the index's position in the whole list |
| ListFacts.LindexNegative | src/redis_rocksdb/list_impl.rs:34-45 | a negative index never yields an element; it is a not-found error when the first node's block exists |
| ListFacts.PieceSlice | src/redis_rocksdb/list_impl.rs:180-188 | a node whose count is right contributes exactly the part of the window that falls on its block |
| ListFacts.GatherWhole | src/redis_rocksdb/list_impl.rs:175-188 | with the window `[0, u]`, nodes whose counts are right and at most `u + 1` each contribute their whole block, so gathering them yields all their elements |
| ListFacts.RangeAlongAll | src/redis_rocksdb/list_impl.rs:175-202 | along a walk with right counts holding `u + 1` elements, the window `[0, u]` gathers every element: the loop stops early only at a node holding all of them |
| ListFacts.LrangeAll | src/redis_rocksdb/list_impl.rs:156-206 | on a list in good order whose length fits an i32, `lrange(0, -1)` answers every element in order |
| ListFacts.LrangeOverreads | src/redis_rocksdb/list_impl.rs:176-188 | on three one-element nodes in good order, `lrange(0, 1)` answers all three elements: `offset` stays 0, so every node is read as if it held positions 0 and 1 |
| ListFacts.LrangeOneNode | src/redis_rocksdb/list_impl.rs:156-206 | on a one-node list in good order, `lrange` answers the inclusive slice of the resolved window, cut to the positions that exist, or nothing when the window is reversed |
| PopFacts.RewriteBlock | src/redis_rocksdb/list_impl.rs:117-122 | writing back a node with the same links and its new block keeps the list linked, with the same keys, head and nodes, and only that block replaced |
| PopFacts.PopKeepsBlock | src/redis_rocksdb/list_impl.rs:116-123 | a pop that leaves its block non-empty answers the end element and writes exactly the block and its node with the new counts; the head is untouched (rpop alike at 346-353) |
| PopFacts.PopOnlyNode | src/redis_rocksdb/list_impl.rs:97-106 | emptying the only node deletes the block and node and rewrites the head as empty; the head is kept, every other key is unchanged (rpop alike at 327-336) |
| PopFacts.PopOneOfMany | src/redis_rocksdb/list_impl.rs:107-115 | emptying one node of several deletes the block and node and sets the head's `right` to the node's left neighbour, with both counts one lower; for `lpop` the head's `left` still names the deleted node (rpop alike at 337-345) |
| PopFacts.LpopKeepsList | src/redis_rocksdb/list_impl.rs:116-123 | on a linked list whose first block keeps an element, `lpop` answers the first element and leaves the list linked, holding the rest |
| PopFacts.RpopKeepsList | src/redis_rocksdb/list_impl.rs:346-353 | on a linked list whose last block keeps an element, `rpop` answers the last element and leaves the list linked, holding all but it |
| PopFacts.PopLeavesCountStale | src/redis_rocksdb/list_impl.rs:119 | on a list in good order, a pop that keeps its block leaves the head's count one above the number of elements |
| LremFacts.RemStepIs | src/redis_rocksdb/list_impl.rs:227-274 | a node step whose removal takes nothing or leaves the block an element changes nothing in the first case, and otherwise rewrites the block and the node's counts and adds what the block removal removed |
| LremFacts.RemEmptiesBlock | src/redis_rocksdb/list_impl.rs:231-265 | a node step that empties its block, per case. No neighbours: the node and the list key are deleted. Only a left one: the list key then holds a node. Both: the right node's right link names the left node. Only a right one: the node is kept and only the head's `left` moves |
| LremFacts.NextKeeps | src/redis_rocksdb/list_impl.rs:229-274 | a node step on a linked list with right counts that does not empty its block keeps the list linked with right counts, replacing only that block by what removal leaves of it; the head being edited and the list key are untouched |
| LremFacts.RewriteCounted | src/redis_rocksdb/list_impl.rs:268-274 | writing back a node's block with the node's count set to the new length keeps the list linked with right counts, the walk's keys the same and only that block replaced |
| LremFacts.RemNext | src/redis_rocksdb/list_impl.rs:227-228 | removal over the first `p + 1` blocks is removal over the first `p` and then over block `p` with the remaining budget |
| LremFacts.RemWalkKeeps | src/redis_rocksdb/list_impl.rs:223-286 | from any node of a list in good order, when removing the first `count` matches leftmost first empties no block, the walk succeeds and leaves the list as removal over the whole list would |
| LremFacts.PartsWhole | src/redis_rocksdb/list_impl.rs:223-228 | once every node is visited, the blocks hold what removal over the whole list leaves, and the running total is what it removes |
| LremFacts.RemWalkAll | src/redis_rocksdb/list_impl.rs:218-286 | when removing the first `count` matches leftmost first empties no block, the whole walk succeeds, keeps the list linked with right counts, and leaves the elements and the count of a removal over the whole list |
| LremFacts.LremKeepsList | src/redis_rocksdb/list_impl.rs:208-304 | on a list in good order where removing the first `count` matches leftmost first empties no block, `lrem` with a positive count answers min(count, matches), removes the leftmost matches, keeps every other element in order, and keeps the list in good order |
| LremPaths.LremEmptiesOnly | src/redis_rocksdb/list_impl.rs:239-243 | emptying the only node deletes block, node and list key; the head written back at lines 296-299 then commits with count 0, naming the deleted node at both ends |
| LremPaths.LremEmptiesLast | src/redis_rocksdb/list_impl.rs:244-249 | emptying the last node of two: the left node written under the list key is overwritten by the head at lines 296-299, so the committed left node and the head's `right` still name the deleted node |
| LremPaths.LremEmptiesMiddle | src/redis_rocksdb/list_impl.rs:250-258 | emptying the middle node of three: the left and right nodes name each other as right neighbours |
| LremPaths.LremEmptiesFirst | src/redis_rocksdb/list_impl.rs:259-264 | emptying the first node of two: its node record is kept with its block deleted, the head's `left` moves on, and the list from the head is in good order holding the rest |

## Left out

- Transactions: RocksDB transactions, conflicts and retries are not modelled. A transaction is a
  copy of the map, and commit is an assignment.
- Walks that do not end: the loops of `lindex`, `lrange` and `lrem` follow right links with no
  bound. The model gives them a hop budget `fuel` and fails with `OutOfFuel` when it is spent.
  A chain with a cycle, which `lrem` can create, walks forever in the source.
- ListImpl.IndexFrom: the running total `it_index` of `lindex` is an unbounded integer here. The
  source's i32 sum could overflow when the cached counts add up to more than 2^31-1.
- ZipList bodies: `ZipList`, `QuickList` and `QuickListNode` are not part of this model. The
  behaviour of the block operations is inferred from their use:
  - `count_index` adds a negative index to the length and does not clamp, so an index below
    `-len` stays negative and then becomes a huge `usize`;
  - `count_in_index` returns the part of the window that falls on the block, in block-local
    positions; the exact formula is a reconstruction;
  - `index` gives nothing for a negative or out-of-range position;
  - `range` returns only positions that exist;
  - popping an empty block gives an empty value;
  - `rem` with a budget that is not positive removes nothing;
  - the encoded size is a stand-in function, and the byte encoding is not modelled.
- Push and insert bodies: `QuickList::lpush`, `rpush` and `list_insert` are function
  parameters of the guarded commands. Only the guard in front of them is modelled.
- `lpush` and `rpush`: they create a head with `QuickList::new` and `init_meta_key`, whose bodies
  are not part of this model.
- ListImpl.LremSpec: for `count < 0` and `count == 0`, the documented removal from the tail and
  removal of every match are not modelled. The code's branches for them are empty, so the
  model removes nothing.
- Methods that are only `todo!()`: `blpop`, `brpop`, `brpoplpush`, `ltrim`, `lset` and
  `rpoplpush` have no behaviour to model.
- The trait in `src/list.rs` has signatures only.
- Error messages: `not_find` and `none_error` are two error kinds without their message
  strings. A record of the wrong kind is a decoding error.
- Global chain consistency after `lpop` or `lrem`: not claimed, since the code as written does
  not keep it. Instead, lemmas state what each path writes. The proofs about a list in good
  order cover pops that keep their block, and `lrem` runs in which removing the first `count`
  matches, leftmost first, leaves every block it takes from with an element. The runs that
  empty a block are worked out on small lists only.
- `lrange` over several nodes: `offset` never advances, so later nodes are read as if they held
  the first list positions. A window is related to a slice of the list only on a one-node list
  and for the whole list (`lrange(0, -1)`).
- Debug-build overflow: a debug build panics when `len_list() - 1` (line 111) or
  `len_node() - 1` (line 110) underflows, or when `count_index`'s i32 addition overflows. The
  model computes the release build's wrapped value (`Width.Sub32`, `Width.WrapAdd32`).
