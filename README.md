# In-memory database: a Dafny model of the store and its three indexes

The system is a key-value store. It keeps an authoritative dictionary `data`, a
write-ahead log, and one active index among three ordered structures: a B+ tree
of order 4, an AVL tree and a skip list. It also records which indexes were ever
active and a latency list per index and per operation. Switching the index and
deleting a key rebuild the active index from `data`. Start-up replays the log
into `data`. The store can name the index with the lowest mean search latency.

Modules, one per file:

- `KeyOrder` (Keys.dfy): keys and values are strings. The order is Python's `<`
  on `str`, which is lexicographic by code point with a proper prefix smaller.
  The file proves this is a strict total order and gives the least key of a
  set.
- `BPlusTrees` (BPlusTree.dfy): `BPlusNode` and `BPlusTree` from
  data_structures/btree.py.
  - Nodes are the value `BNode = Leaf(entries) | Internal(seps, children)`. The
    leaf `next` chain is the left-to-right sequence of leaves, `Leaves`.
  - `_insert_non_full` is the ghost function `Ins`. The method `InsertNonFull`,
    with the source's right-to-left scan loop `ScanBack`, is proved equal to it.
  - The class `BPlusTree` reassigns `root`.
- `AvlTrees` (AvlTree.dfy): `AVLTree` from data_structures/avl_tree.py.
  - Nodes carry the cached height.
  - Rotations and `_insert` are functions on tree values. The class `AvlTree`
    reassigns `root`.
- `SkipLists` (SkipList.dfy): `SkipList` from data_structures/skip_list.py.
  - The list is stored as its level-0 chain of nodes, each with its level.
  - A forward pointer at level i is the next node whose level reaches i
    (`NextAt`). `update[i]` is `Pred`.
  - `insert` is a walk down the levels (`Descend`, `WalkLevel`) followed by an
    overwrite or a splice (`AddNode`).
  - The coin of `random_level` is a free choice.
- `WriteAheadLog` (Wal.dfy): the log as a sequence of entries, and the
  dictionary that replaying it rebuilds.
- `Performance` (Metrics.dfy): the latency lists and the choice of the fastest
  index for search.
- `Database` (Store.dfy): the class `InMemoryDB`. Its invariant `Valid` says:
  - the three index objects are well formed;
  - the active one mirrors `data`;
  - the active index is among the used ones;
  - replaying the log gives `data`.

Every key and value is a string, so the source's `str(key)` and `str(value)`
change nothing. The raw key and value that `update` hands to the index, and
that every operation writes to the log, are then the same as the normalised
ones. The model has a single key and a single value throughout.

The B+ tree never overwrites. An insert of a key that is already present puts a
second entry after the first (data_structures/btree.py:28-30). Search returns
the first entry with that key in the leaf it reaches (data_structures/btree.py:83-85).
So after `update` with the B+ tree active, `search` may go on answering the old
value, although the comment at database/in_memory_db.py:140 says the B+ tree
insert handles updates. The model follows the code:

- `BPlusTrees.InsertKeepsOldValue` shows a tree where it happens.
- The store's invariant for the B+ tree is `BTreeHolds`, not equality. Every
  leaf entry is under a key of `data`, and every pair of `data` is among the
  leaf entries.
- `search` with the B+ tree active is proved to answer exactly when the key is
  present. It answers `data`'s value whenever the tree holds no stale entry,
  which is the case after every rebuild (`BTreeExact`).

## Model

| member | source | states |
|---|---|---|
| KeyOrder.NotLtIsLe | data_structures/btree.py:78 | `key >= k`, written as not `key < k`, is `k <= key`: the string order is total |
| KeyOrder.Least | database/in_memory_db.py:385 | a non-empty set of keys has a member that is at most every member, the first key of the sorted listing |
| BPlusTrees.SplitNode | data_structures/btree.py:44-72 | a full node splits into two halves whose entries, concatenated, are the node's entries; neither half is full; a leaf splits into two leaves and the key copied up is the first key of the right half |
| BPlusTrees.SplitChild | data_structures/btree.py:44-72 | `_split_child` gives the parent one more separator and one more child, and the entries under the parent are unchanged |
| BPlusTrees.SplitLeafLinks | data_structures/btree.py:50-60 | after a leaf split the leaf chain is the old chain with that leaf replaced by `keys[:order//2]` followed at once by `keys[order//2:]`, and the separator inserted at `child_index` is the sibling's first key |
| BPlusTrees.SplitNodeShape | data_structures/btree.py:61-72 | both halves of a full node are as deep as it and fit the order; an internal half keeps one more child than keys |
| BPlusTrees.SplitChildShape | data_structures/btree.py:44-72 | splitting a full child of a node that is not full keeps every leaf at the same depth and no node over `order`, and both halves are below `order` |
| BPlusTrees.SplitChildOrdered | data_structures/btree.py:44-72 | splitting a child keeps every key between the separators around it |
| BPlusTrees.InsPosSplits | data_structures/btree.py:28-35 | the right-to-left scan stops just past the last key that the new key is not below, and every key from there on is above it |
| BPlusTrees.ScanBack | data_structures/btree.py:24-29 | the scan loop computes exactly that stopping point |
| BPlusTrees.InsertNonFull | data_structures/btree.py:23-42 | `_insert_non_full`, with its loops and its recursion, yields exactly `Ins` |
| BPlusTrees.InsEntries | data_structures/btree.py:28-42 | inserting into a node that is not full adds exactly one entry `(k, v)` and removes none, even when `k` is already present |
| BPlusTrees.InsShape | data_structures/btree.py:37-42 | splitting before descending keeps every leaf at the same depth and no node over `order` |
| BPlusTrees.InsOrdered | data_structures/btree.py:28-42 | insertion keeps every leaf sorted and every key between its separators, including an equal key sent left after a split |
| BPlusTrees.OrderedEntries | data_structures/btree.py:55-57 | in an ordered tree the leaf chain read left to right is in non-decreasing key order |
| BPlusTrees.Grow | data_structures/btree.py:15-19 | a full root goes under a new internal root and is split there: one level deeper, every leaf still at the same depth, same entries |
| BPlusTrees.GrowOrdered | data_structures/btree.py:15-19 | the grown tree is ordered when the old one was |
| BPlusTrees.InsertedValid | data_structures/btree.py:13-21 | `insert` keeps the tree well shaped and ordered, grows it by one level exactly when the root was full, and adds exactly the one entry |
| BPlusTrees.ChildIndexSplits | data_structures/btree.py:77-79 | the descent goes past every separator the key is not below (equal keys go right) and stops at the first one above it |
| BPlusTrees.FirstMatchFinds | data_structures/btree.py:83-86 | the leaf scan answers exactly when some entry has the key, and then a value stored with it |
| BPlusTrees.ReachFinds | data_structures/btree.py:74-86 | in an ordered tree, a key held anywhere is held in the leaf the descent reaches |
| BPlusTrees.SearchMeaning | data_structures/btree.py:74-86 | `search` answers exactly when some leaf entry has the key, and the answer is stored with it |
| BPlusTrees.InsertedFresh | data_structures/btree.py:13-21 | after inserting a key that was absent, `search` answers the inserted value |
| BPlusTrees.InsertKeepsOldValue | data_structures/btree.py:28-30 | inserting `("a","1")` and then `("a","2")` leaves both entries, and `search("a")` answers `"1"` |
| BPlusTrees.BPlusTree.constructor | data_structures/btree.py:9-11 | a new tree is one empty leaf with the given order |
| BPlusTrees.BPlusTree.Insert | data_structures/btree.py:13-21 | the new root is `Inserted(old root)`: valid, exactly one more entry, one level higher exactly when the root was full, and a key absent before is found with its value |
| BPlusTrees.BPlusTree.Search | data_structures/btree.py:74-86 | the descent and scan loops return the first match in the reached leaf, which is present exactly when the tree holds the key |
| AvlTrees.CachedHeightIsDepth | data_structures/avl_tree.py:13-16 | a cached height kept as `1 + max` of the children's is the real depth |
| AvlTrees.RightRotate | data_structures/avl_tree.py:23-30 | `right_rotate` keeps the in-order sequence of pairs and the contents |
| AvlTrees.LeftRotate | data_structures/avl_tree.py:32-39 | `left_rotate` keeps the in-order sequence of pairs and the contents |
| AvlTrees.RightRotateBst | data_structures/avl_tree.py:23-30 | `right_rotate` keeps the search-tree order |
| AvlTrees.LeftRotateBst | data_structures/avl_tree.py:32-39 | `left_rotate` keeps the search-tree order |
| AvlTrees.RotateRightCase | data_structures/avl_tree.py:60-62 | left-left case: one right rotation restores balance and the height before the insert |
| AvlTrees.RotateLeftRightCase | data_structures/avl_tree.py:63-65 | left-right case: the double rotation restores balance and that height |
| AvlTrees.RotateLeftCase | data_structures/avl_tree.py:67-69 | right-right case: one left rotation restores balance and that height |
| AvlTrees.RotateRightLeftCase | data_structures/avl_tree.py:70-72 | right-left case: the double rotation restores balance and that height |
| AvlTrees.InsertedLeft | data_structures/avl_tree.py:48-74 | after inserting on the left, the rotation chosen by comparing the key with the left child's is the right one, and the result is an AVL tree with the key set to the value |
| AvlTrees.InsertedRight | data_structures/avl_tree.py:50-74 | the same for the right side |
| AvlTrees.InsertNode | data_structures/avl_tree.py:44-74 | `_insert` returns a balanced search tree with correct cached heights whose contents are the old ones with the key set to the value; it is at most one level higher, and no higher when the key was present |
| AvlTrees.EqualKeyOverwrite | data_structures/avl_tree.py:52-54 | an equal key sets the node's value and changes nothing else |
| AvlTrees.InsertExistingSetsValue | data_structures/avl_tree.py:52-54 | inserting a present key only sets that node's value: no pointer or height changes anywhere |
| AvlTrees.SearchNodeFinds | data_structures/avl_tree.py:79-86 | `_search` returns the value stored under the key, or nothing when the key is absent |
| AvlTrees.AvlTree.constructor | data_structures/avl_tree.py:10-11 | a new tree is empty |
| AvlTrees.AvlTree.Insert | data_structures/avl_tree.py:41-42 | the tree stays AVL, its contents gain the pair, and a present key only has its value set |
| AvlTrees.AvlTree.Search | data_structures/avl_tree.py:76-77 | `search` is a lookup in the contents |
| SkipLists.SkipList.constructor | data_structures/skip_list.py:10-14 | a new list is empty at level 0 |
| SkipLists.SkipList.RandomLevel | data_structures/skip_list.py:16-20 | the level drawn is at most `max_level` |
| SkipLists.LevelsNest | data_structures/skip_list.py:45-47 | the next node at level i is never closer than the next at level i-1: each level's chain is a sub-chain of the one below |
| SkipLists.LowerBoundSplits | data_structures/skip_list.py:27-31 | on a sorted chain the key's place splits the keys below it from the rest |
| SkipLists.PredIsLastBefore | data_structures/skip_list.py:26-29 | a position that reaches level i and whose level-i successor is at or past the key's place is `update[i]` |
| SkipLists.SkipList.WalkLevel | data_structures/skip_list.py:27-28 | one level of the walk stops at the key's level-i predecessor |
| SkipLists.SkipList.Descend | data_structures/skip_list.py:23-29 | the walk ends just before the key's place, and `update[i]` is the level-i predecessor at every level up to the list's level |
| SkipLists.SkipList.PointAboveTop | data_structures/skip_list.py:38-40 | levels above the old top get the header as predecessor, which is their true predecessor |
| SkipLists.FoundAtLowerBound | data_structures/skip_list.py:31-33 | the key is present exactly when the node after the walk has it, and then that node holds its value |
| SkipLists.ContentOverwrite | data_structures/skip_list.py:33-34 | setting that node's value sets the key's value in the list |
| SkipLists.SortedSpliced | data_structures/skip_list.py:43-47 | splicing an absent key in at its place keeps the chain strictly ascending |
| SkipLists.ContentSpliced | data_structures/skip_list.py:43-47 | the splice adds exactly the new pair |
| SkipLists.SpliceRelinks | data_structures/skip_list.py:45-47 | after the splice, `update[i]` points at the new node, and the new node points at what `update[i]` pointed at |
| SkipLists.RelinkAll | data_structures/skip_list.py:43-47 | the splice loop over every level of the new node: each recorded predecessor then points at the new node, which points at that predecessor's old successor |
| SkipLists.SkipList.AddNode | data_structures/skip_list.py:35-47 | a new key gets a node of a drawn level at its place; the list's level becomes the larger of the two; `update[i]` is the level-i predecessor for every level of the node, and the splice goes through it as `RelinkAll` states; the pair is added |
| SkipLists.SkipList.Insert | data_structures/skip_list.py:22-47 | the list stays strictly sorted with levels within bounds, and its contents gain the pair; a present key changes no key or level, and an absent one is spliced at its place |
| SkipLists.SkipList.Search | data_structures/skip_list.py:49-60 | `search` returns the value stored under the key, or nothing when the key is absent |
| WriteAheadLog.Apply | database/in_memory_db.py:29-33 | one replayed entry affects its own key only: afterwards a key is present exactly when the entry writes it, or it was present and the entry neither writes nor deletes it; a written key holds the entry's value and every other key keeps its old one |
| WriteAheadLog.ApplyIdempotent | database/in_memory_db.py:29-33 | replaying the same entry twice in a row gives the same dictionary as replaying it once |
| WriteAheadLog.ReplayLastWrite | database/in_memory_db.py:26-34 | a key is in the recovered dictionary exactly when the last entry touching it writes it, and its value is that entry's |
| WriteAheadLog.ReplayAfterClear | database/in_memory_db.py:29-33 | a `clear` entry has no effect on recovery |
| WriteAheadLog.ReplayClear | database/in_memory_db.py:405-414 | the log `clear` leaves recovers to an empty dictionary |
| Performance.Samples.Add | database/in_memory_db.py:120 | one latency is appended to one operation's list and the others are unchanged |
| Performance.Metrics.Record | database/in_memory_db.py:120 | one latency is appended to one structure's list for one operation and every other list is unchanged |
| Performance.Searched | database/in_memory_db.py:348-354 | the structures collected are exactly those with a search latency |
| Performance.FastestSearch | database/in_memory_db.py:362-377 | the structure found has a mean search latency no larger than any other's |
| Performance.BestSearch | database/in_memory_db.py:345-379 | nothing unless every structure has a search latency, and otherwise one with the smallest mean |
| Database.BuildBTree | database/in_memory_db.py:81-96 | a new B+ tree of order 4 holding exactly the pairs of `data`, one entry per key |
| Database.BuildAvl | database/in_memory_db.py:81-96 | a new AVL tree whose contents are `data` |
| Database.BuildSkipList | database/in_memory_db.py:81-96 | a new skip list of level cap 16 whose contents are `data` |
| Database.SortedItems | database/in_memory_db.py:381-386 | the pairs of the dictionary, each once, in strictly ascending key order |
| Database.InMemoryDB.constructor | database/in_memory_db.py:9-24 | empty indexes, the B+ tree active and used, empty latency lists, then recovery: `data` is the replay of the persisted log and the B+ tree holds exactly it, one entry per key; the AVL tree and the skip list stay empty |
| Database.InMemoryDB.RecoverFromWal | database/in_memory_db.py:26-34 | the loop leaves `data` equal to the replay of the log and the active index rebuilt with exactly `data` |
| Database.InMemoryDB.SyncData | database/in_memory_db.py:81-96 | only the active index is replaced, by a new one holding exactly `data`; nothing else changes |
| Database.InMemoryDB.SetStructure | database/in_memory_db.py:36-63 | the active name changes nothing; another name becomes active and used, and its index is rebuilt from `data` alone |
| Database.InMemoryDB.IndexInsert | database/in_memory_db.py:108-113 | the pair goes into the active index only; the AVL tree and the skip list then answer the new value, and the B+ tree gains exactly one entry |
| Database.InMemoryDB.Insert | database/in_memory_db.py:98-125 | `data[key] := value`, one insert entry logged, one insert latency recorded under the active index, which is used; a new key is then found with its value |
| Database.InMemoryDB.Update | database/in_memory_db.py:127-157 | an absent key returns false and changes nothing; otherwise as insert, logged as an update, and the B+ tree gains one more entry for the key, keeping the ones it had |
| Database.InMemoryDB.ExactAnswers | database/in_memory_db.py:184-208 | an index rebuilt from `data` answers every search with `data`'s own lookup, the B+ tree included |
| Database.InMemoryDB.Delete | database/in_memory_db.py:159-182 | an absent key returns false and changes nothing; otherwise the key leaves `data`, the active index is rebuilt from what remains, one delete is logged, and search then misses |
| Database.InMemoryDB.Search | database/in_memory_db.py:184-208 | the active index's answer, present exactly when `data` has the key, and `data`'s value unless the B+ tree holds a stale entry; only the latency lists and the used set change |
| Database.InMemoryDB.BestSearchStructure | database/in_memory_db.py:345-379 | the fastest index for search over the store's own latency lists |
| Database.InMemoryDB.AllData | database/in_memory_db.py:381-386 | `get_all_data` lists `data` in ascending key order |
| Database.InMemoryDB.Clear | database/in_memory_db.py:388-414 | `data` empty, three new empty indexes, every latency list empty, the log exactly one `clear`; the active index and used set kept |

## Left out

- A failure to truncate the log file in `clear` (database/in_memory_db.py:406-411). The source prints it and goes on, so the old entries would stay ahead of the new `clear` entry. Recovery skips `clear` entries, so a restart would then bring the old pairs back. The model's `Clear` always leaves a log of exactly one `clear`.
- The log file. Its JSON lines, timestamps, `fsync`, the write path that swallows errors, and skipped unparseable lines (database/wal.py) are not modelled. The log is the sequence of entries, and the constructor takes the persisted entries as a parameter.
- Wall-clock time. Latencies are non-negative reals supplied by the caller. Every `print` is left out.
- The visualizer and everything that returns its output: the result of `set_structure`, and `get_current_visualization`. visualizer/data_structure_viz.py is not part of this model.
- `_get_current_structure` is the dispatch on `current` inside each method, and `Answer` for search.
- Not part of this model:
  - `get_performance_metrics`, `get_performance_summary` and `get_best_structure` (floating-point heuristics and deep copies);
  - database/cricket_stats.py;
  - app.py;
  - pages/cricket_leaderboard.py.
- Exceptions. The `try`/`except` branches of `insert`, `update`, `delete` and `search` handle failures that cannot occur with string keys and well-formed indexes.
- Structure names other than the three. The active index is a three-valued datatype, so the source's fall-through of any unknown name to the skip list is not modelled.
- Performance.BestSearch: returns the structure, not its display name ("B+ Tree", "AVL Tree", "Skip List"). The name is a fixed one-to-one relabelling.
- Performance.BestSearch: the source walks a Python set, whose order is not fixed, and keeps the first minimum it meets. The model walks in a freely chosen order, so which of several tied structures wins is left open.
- Dictionary and set iteration order. `_sync_data` and the rebuilds walk `data` in a freely chosen order. The B+ tree's shape after a rebuild therefore depends on a choice the model does not fix, but its entries do not.
- The skip list's probability `p` and Python's random source. The coin is an unconstrained choice, so the model covers every sequence of draws.
- Node identity and aliasing. B+ tree and AVL nodes are values, and skip-list pointers are derived from levels. In-place pointer rewrites are modelled by the structure that results. A B+ tree leaf is reached both from its parent and from its left neighbour's `next` (data_structures/btree.py:56-57). The model does not keep that second reference: the `next` chain is the left-to-right order of the leaves (`Leaves`), and `SplitLeafLinks` states how a split changes it. No other node is shared.
- BPlusTrees.BPlusTree.constructor: requires an order of at least 2. With order 0 or 1 the source's splits fail or leave nodes over the order. The store always uses 4.
- AvlTrees.AvlTree.Insert, SkipLists.SkipList.Insert, BPlusTrees.BPlusTree.Insert: require their structure's invariant, which every constructor establishes and every operation keeps. The model does not say what the source does on a malformed structure.
- Keys of mixed types, and the integer or other non-string keys and values that `str()` would convert: keys and values are strings only.
