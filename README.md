# B-tree with an insertion log

This project models the B-tree of `src/btree.hpp` and `src/btree.cpp`. The tree has minimum degree `t`. Search, in-order traversal and insertion follow the CLRS algorithms: a full child is split on the way down, and a full root grows a new root. Every key inserted is also appended to a log, `all_keys`. `erase(k)` is not a textbook deletion. It drops the first logged `k`, throws the tree away, and inserts the remaining logged keys again in their original order.

The model has two layers.

* **The pure layer** works on values.
  * `BTreeShape` defines the `Tree` datatype and its invariants: shape (`Wf`), in-order keys (`Inorder`), degree bounds (`ChildDegrees`) and the whole B-tree invariant (`IsBTree`).
  * `BTreeSpec` states every node operation as a function on `Tree` values, with the lemmas that these functions keep the invariant and keep or extend the in-order keys:
    * `SplitChild`, with its halves `Lower` and `Upper`;
    * `Route`, for the split-and-pick step of `insertNonFull`;
    * `InsertNonFull`, `GrowRoot`, `Insert`;
    * `Search`, `Contains`, `Traverse`;
    * `FromLog`, the tree a log builds;
    * `EraseLog`.
  * `Sequences` holds the two key scans the code performs (`InsertPos` and `FirstGe`), and the "drop the first occurrence" edit of the log (`RemoveFirst`).
* **The imperative layer** mirrors the C++ objects. `Node` objects are updated in place and linked by pointers.
  * `Arena` stores every node as a record `Rec` in a sequence. A `Node*` becomes the index (handle) of its record. `new Node` appends a record, and an update in place replaces the record at a handle. A ghost rank per record, lower for a child than for its parent, gives acyclicity and termination. `Abs` reads the `Tree` value at a handle, and `Reach` reads the set of handles below it.
  * `BTreeImpl.BTree` is the class. Its fields are the arena, `root`, `t` and `allKeys`.
    * Each `Node` member function becomes a method that takes the handle of the node it runs on. It is proved to turn that node's value into what the matching `BTreeSpec` function gives.
    * The index loops of `search`, `insertNonFull` and the erase copy are `while` loops, proved against the `Sequences` functions (`FirstGe`, `InsertPos`, `RemoveFirst`). The `std::find` loop is proved against its own first-occurrence contract.
    * `Extends` records what a descent may change: the subtree at the handle it ran on, plus freshly appended records, and nothing else.

`BTree::Node` (src/btree.hpp:13-28) has two representations. `BTreeShape.Tree` is its value form: the leaf flag, the keys, and the child subtrees themselves. `Arena.Rec` is its in-place form: the leaf flag, the node's copy of `t`, the keys, and the child handles.

Duplicate keys are allowed, as in the code, which never checks whether a key is already present. So the invariant is that in-order keys are non-decreasing, not strictly increasing. When the log holds no duplicates, the traversal is strictly increasing (`TraverseStrict`).

## Model

| member | source | states |
|---|---|---|
| BTreeShape.LeafPathLength | src/btree.cpp:83-90 | in a shaped tree every path from the root to a leaf has the same length, the height |
| BTreeSpec.Lower | src/btree.cpp:62-63 | y after the split: its first t-1 keys and, when internal, its first t children |
| BTreeSpec.Upper | src/btree.cpp:52-60 | the new node z: y's leaf flag, y's keys from t on and, when internal, y's children from t on |
| BTreeSpec.SplitChild | src/btree.cpp:50-69 | x after splitChild(idx, y): the median inserted into the keys at idx, and y replaced by its lower and upper halves at children idx and idx+1 |
| BTreeSpec.SplitNode | src/btree.cpp:54-63 | a full node (2t-1 keys) splits into two shaped halves of t-1 keys each, at the same height; the halves' in-order keys with the median between them are the node's in-order keys; degree bounds carry over to both halves |
| BTreeSpec.SplitChildSpec | src/btree.cpp:50-69 | splitting full child idx of a shaped node keeps it shaped, at the same height and with the same in-order keys; it adds one key (the child's median, at idx) and one child; both new children hold t-1 keys; degree bounds are kept |
| BTreeSpec.SplitChildFrame | src/btree.cpp:56-68 | after splitChild the keys before idx and the children before idx are unchanged, and the keys from idx on and the children from idx+1 on have moved one place right; the median sits at keys[idx]; y's lower half sits at children[idx] and its upper half at children[idx+1]; the halves split y's keys around the median and partition y's children; z is a leaf exactly when y is |
| BTreeSpec.Route | src/btree.cpp:40-45 | the node after the split-and-pick step is shaped, internal, at the same height, and the chosen index is a valid child |
| BTreeSpec.RouteSpec | src/btree.cpp:40-45 | the split-and-pick step keeps the in-order keys and adds at most one key; the chosen child lies between the keys around it with respect to k (the key before it is <= k, the key after it is >= k); under the degree bounds the chosen child is not full, so the descent never enters a full node |
| BTreeSpec.InsertNonFull | src/btree.cpp:30-48 | insertNonFull: at a leaf, k inserted into the keys at the scan slot; at an internal node, the split-and-pick step and then insertion into the chosen child |
| BTreeSpec.LeafInsert | src/btree.cpp:31-38 | inserting k at the scan slot adds exactly one k to the multiset of keys and keeps a sorted key list sorted |
| BTreeSpec.InsertNonFullSpec | src/btree.cpp:30-48 | insertNonFull keeps the node shaped and at the same height; it adds at most one key to the node itself; the in-order multiset gains exactly k; sortedness and the degree bounds are kept |
| BTreeSpec.DescendInto | src/btree.cpp:46 | inserting into a child that lies between its neighbouring keys with respect to k adds k to the parent's multiset and keeps the parent sorted, shaped and within the degree bounds when that child was not full |
| BTreeSpec.GrowRoot | src/btree.cpp:84-86 | a new internal root with no keys and the full root as its only child, after splitChild(0) |
| BTreeSpec.GrowRootSpec | src/btree.cpp:83-86 | a full root under a new empty parent, once split, gives a shaped internal root one level higher, holding only the old median, with two children of t-1 keys, the same in-order keys and the degree bounds |
| BTreeSpec.Insert | src/btree.cpp:76-95 | insert: the leaf [k] on an empty tree; on a full root, GrowRoot and then InsertBelow; otherwise insertNonFull at the root |
| BTreeSpec.InsertBelow | src/btree.cpp:87-89 | in the new one-key root, insertNonFull into child 1 when the key is less than k, otherwise into child 0 |
| BTreeSpec.InsertSpec | src/btree.cpp:76-95 | insert keeps the B-tree invariant and adds exactly one copy of k to the multiset of keys |
| BTreeSpec.InsertFullRoot | src/btree.cpp:83-90 | inserting into a full root gives a B-tree one level higher whose root holds only the old root's median and has two children, and whose multiset of keys gains k |
| BTreeSpec.InsertHeight | src/btree.cpp:76-95 | an empty tree becomes the leaf [k]; a full root raises the height by one, leaving a root of one key and two children; otherwise the height stays the same |
| BTreeSpec.FromLog | src/btree.cpp:116-118 | the tree built by inserting a log in order into an empty tree is a B-tree, and it is empty exactly when the log is empty |
| BTreeSpec.FromLogKeys | src/btree.cpp:116-118 | the tree a log builds holds exactly the log's keys, as a multiset |
| BTreeSpec.Search | src/btree.cpp:22-28 | search: stop at the first key >= k; this node when that key is k, not found at a leaf, otherwise the search continues in the child at that slot |
| BTreeSpec.SearchCorrect | src/btree.cpp:22-28 | in a shaped, sorted tree, search finds a node exactly when k is among the tree's keys, and the node it returns holds k |
| BTreeSpec.Traverse | src/btree.cpp:13-20 | Node::traverse: the key loop, then the last child at depth + 1 when the node is internal and has children |
| BTreeSpec.TraverseUpTo | src/btree.cpp:15-18 | the first j rounds of the key loop: child i at depth + 1 (when internal and present), then the visit of key i at this depth |
| BTreeSpec.TraverseInorder | src/btree.cpp:13-20 | the keys visited by traverse, in visit order, are the in-order keys |
| BTreeSpec.TraverseUpToPrefix | src/btree.cpp:15-18 | the loop over the first j keys visits the in-order prefix up to child j |
| BTreeSpec.Contains | src/btree.cpp:97-100 | contains: false on the empty tree, otherwise whether search from the root finds a node |
| BTreeSpec.ContainsCorrect | src/btree.cpp:97-100 | contains(k) holds exactly when k is a key of the tree, and is false on the empty tree |
| BTreeSpec.InsertThenContains | src/btree.cpp:76-100 | after insert(k) the tree is a B-tree and contains(k) holds |
| BTreeSpec.EraseLog | src/btree.cpp:105-114 | the log loses exactly one entry when k is in it and is unchanged otherwise |
| BTreeSpec.EraseKeys | src/btree.cpp:102-119 | the tree rebuilt after erase(k) holds the old log's keys minus one copy of k |
| BTreeSpec.InsertEraseRoundTrip | src/btree.cpp:76-119 | inserting a key not in the log and then erasing it restores the log, and with it the rebuilt tree |
| BTreeSpec.TraverseSorted | src/btree.cpp:131-133 | traversal of a B-tree visits its keys in non-decreasing order |
| BTreeSpec.TraverseStrict | src/btree.cpp:131-133 | when the log has no repeated key, the tree it builds is non-empty for a non-empty log and its traversal is strictly increasing |
| BTreeSpec.AscendingFill | src/btree.cpp:30-38 | inserting up to 2t-1 ascending keys into an empty tree gives a single leaf holding them in order |
| BTreeSpec.AscendingSplit | src/btree.cpp:83-90 | one more ascending key after a full leaf root gives a root holding the median over a left leaf of the first t-1 keys and a right leaf of the rest plus the new key |
| BTreeSpec.FullLeafInsert | src/btree.cpp:83-90 | inserting a key larger than all keys of a full leaf root splits it into a root holding the median over two leaves, the new key going right |
| BTreeSpec.ExampleFill | src/btree.cpp:76-95 | with t = 3, inserting 10, 20, 30, 40, 50 gives one leaf [10, 20, 30, 40, 50] |
| BTreeSpec.ExampleSplit | src/btree.cpp:83-90 | with t = 3, inserting 60 into that leaf gives root [30] over leaves [10, 20] and [40, 50, 60] |
| Sequences.InsertPos | src/btree.cpp:31-41 | the slot reached by scanning right to left past keys greater than k: every key from it on is > k, the key before it is <= k, and on a sorted list it is the number of keys <= k (equal keys stay in front of k) |
| Sequences.FirstGe | src/btree.cpp:23-24 | the slot reached by scanning left to right past keys less than k: every key before it is < k and the key at it, if any, is >= k |
| Sequences.RemoveFirst | src/btree.cpp:108-114 | dropping the first occurrence of k shortens the list by one when k occurs in it and not at all otherwise |
| Sequences.RemoveFirstMultiset | src/btree.cpp:108-114 | dropping the first occurrence removes exactly one copy of k from the multiset |
| Sequences.RemoveFirstAt | src/btree.cpp:105-114 | when the first k is at index i, the result is the list without index i, everything else in its original order |
| Sequences.RemoveFirstAbsent | src/btree.cpp:105-106 | the log is unchanged when k does not occur in it |
| Arena.SplitArena | src/btree.cpp:50-69 | the arena after splitChild at x: y cut to its first t-1 keys (and t children), the median inserted into x's keys at idx, and z appended with y's upper keys (and children) and linked in as x's child idx+1 |
| Arena.SplitParentAbs | src/btree.cpp:50-69 | splitting in the arena turns the value at x into exactly the pure SplitChild of its old value |
| Arena.SplitParentTree | src/btree.cpp:50-69 | after the split x still heads a tree, sharing no record between siblings; its records are at most the old ones plus the new node z |
| Arena.SplitExtends | src/btree.cpp:50-69 | the split changes only records below x and appends only z; every other record is unchanged |
| Arena.SetKeys | src/btree.cpp:33-38 | replacing x's keys in place changes only x's record: x's value becomes the same node with the new keys, and every other record is unchanged; the arena stays closed |
| Arena.AppendKeeps | src/btree.cpp:52 | allocating a node leaves the value, the records and the tree property of every existing handle unchanged |
| Arena.PushRoot | src/btree.cpp:84-85 | a new internal node whose only child is the old root heads a tree whose value has no keys and one child, the old root's value |
| Arena.GrowArena | src/btree.cpp:84-86 | the new root, once it has split its only child, heads a tree whose value is the pure GrowRoot of the old root's value |
| BTreeImpl.BTree.constructor | src/btree.cpp:72 | a new tree of minimum degree t0 (2 by default) is empty, has an empty log, and is valid and in step with its log |
| BTreeImpl.BTree.SplitChild | src/btree.cpp:50-69 | the arena after the call is the split arena: y cut to its lower half, the median inserted into x's keys at idx, and z, the upper half, appended and linked as child idx+1; root and log unchanged |
| BTreeImpl.BTree.InsertNonFull | src/btree.cpp:30-48 | the value at x becomes the pure InsertNonFull of its old value; only records below x change and only new records are added; root and log unchanged |
| BTreeImpl.BTree.SplitIfFull | src/btree.cpp:40-45 | the node and the returned child index are exactly the pure Route of the old value; only records below x change |
| BTreeImpl.BTree.Search | src/btree.cpp:22-28 | returns null exactly when the pure search does, and otherwise a handle inside x's subtree whose value is the node the pure search returns |
| BTreeImpl.BTree.TraverseNode | src/btree.cpp:13-20 | the visits made are those of the pure traversal at that depth |
| BTreeImpl.BTree.TraverseKeys | src/btree.cpp:15-18 | the visits made by the key loop are those of the pure traversal of the node's keys and of the children before them |
| BTreeImpl.BTree.Insert | src/btree.cpp:76-95 | the tree stays valid; its value is the pure Insert of the old value; k is appended to the log; a tree in step with its log stays so |
| BTreeImpl.BTree.Contains | src/btree.cpp:97-100 | the answer is the pure Contains, that is, whether k is a key of the tree |
| BTreeImpl.BTree.Erase | src/btree.cpp:102-119 | the log loses its first k; when k was never logged nothing else changes; otherwise the tree is the one the new log builds |
| BTreeImpl.BTree.InsertAll | src/btree.cpp:118 | inserting a list of keys in order appends them to the log and keeps the tree the one its log builds |
| BTreeImpl.BTree.Clear | src/btree.cpp:121-124 | the tree becomes empty and valid; the log and the records are kept |
| BTreeImpl.BTree.ClearAll | src/btree.cpp:126-129 | the tree and the log both become empty; the tree is again in step with its log |
| BTreeImpl.BTree.Traverse | src/btree.cpp:131-133 | no visits on the empty tree; otherwise the root's traversal at depth 0, whose keys are the tree's keys in non-decreasing order |
| BTreeImpl.BTree.InsertEmpty | src/btree.cpp:77-82 | an empty tree gets one new leaf record holding only k, and it becomes the root |
| BTreeImpl.BTree.InsertAtRoot | src/btree.cpp:83-93 | the new root heads a tree whose value is the pure Insert into the old root's value |
| BTreeImpl.BTree.InsertFull | src/btree.cpp:83-90 | a full root is replaced by a new root whose value is the pure Insert into the old value |
| BTreeImpl.BTree.InsertInto | src/btree.cpp:87-89 | in a new root of one key, k goes to child 0 or child 1 by comparing it with that key, and the value becomes the pure InsertBelow |
| BTreeImpl.BTree.GrowRoot | src/btree.cpp:84-86 | returns the handle of a newly appended internal node of one key whose value is the pure GrowRoot of the old root |
| BTreeImpl.Find | src/btree.cpp:105 | the index of the first k in the log, or its length exactly when k is absent |
| BTreeImpl.SkipFirst | src/btree.cpp:108-114 | the copy loop with its "skipped" flag yields the log with its first k dropped |
| BTreeImpl.SlotAfter | src/btree.cpp:40-41 | the right-to-left scan stops at the insertion slot InsertPos |
| BTreeImpl.ShiftIn | src/btree.cpp:33-38 | shifting keys right and writing k gives the keys with k inserted at InsertPos |

## Left out

- `src/main.cpp`: the window, input, text, camera, layout, drawing and `rand()` sample data are I/O, floating point and randomness. No entry point into the tree is missing without it.
- Destructors and `delete` (src/btree.cpp:9-11, 74, 122): memory reclamation is not modelled. A cleared tree's records stay in the arena, unreachable from `root`.
- The `std::function` callback of `traverse`: it becomes the returned sequence of `Visit(key, depth, index)` records, one per callback, in callback order. The callback receives the node pointer and the index; the model records the key at that index instead.
- `getRoot()` (src/btree.hpp:44), a one-line accessor: the root handle is the `root` field.
- Integer width: keys, `t` and `2 * t - 1` are unbounded integers. Whether `2 * t - 1` overflows `int` for huge `t` is not modelled. Neither is the `(size_t)` cast at src/btree.cpp:83. For `t <= 0` that cast makes the comparison always false, and the model's comparison with a negative bound is also always false.
- Pointer aliasing beyond the tree: handles are indices into one arena. No node is shared between two trees.
- `remaining.reserve` (src/btree.cpp:109) only preallocates capacity.
- The per-node `t` (src/btree.hpp:15) is kept in every record. The class invariant `ArenaOk` states that it equals the tree's `t`, which is how `splitChild` can mix `y->t` and its own `t`.
- BTreeImpl.BTree.SplitChild: requires `SplitPre`: the arena is closed, `x` heads a tree, `idx` is a child slot with `idx <= |keys|`, `y` is full (2t-1 keys), and `y` has at least `t` children when internal. The source assumes this without checking, and every caller establishes it first.
- BTreeImpl.BTree.Insert, Erase, Contains, Clear, ClearAll, Traverse: require the class invariant `Valid()`. It holds after the constructor and is preserved by every public method.
- Uniqueness of keys: the code never rejects a key that is already present, so the model allows duplicates, and `Sorted` means non-decreasing. Strict order is proved only for logs without repeated keys (`TraverseStrict`).
- `clear()` keeps the log, so after a `clear()` of a non-empty log the tree is no longer the one its log builds (`Synced` fails). A later erase of a logged key rebuilds from the log minus that key, which restores the other cleared keys. An erase of a key not in the log returns without rebuilding. The model follows the code here.
