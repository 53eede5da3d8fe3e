# An unfinished B-tree, modelled in Dafny

The repository holds two unfinished copies of an in-memory B-tree that maps
ordered keys to values. The older copy is under `lib/btree/` and the newer
one under `src/`. In both copies most of the tree algorithms are unimplemented
stubs. This project models the code that does exist and proves what it
guarantees:

- **The older node** (`lib/btree/node.rs`), in module `LibNode`. `insert`
  binary-searches the key vector and splices the new key in at the index it
  gets back, whether or not an equal key is already there. `insert_keys` calls
  `insert` once per key in a loop. The node also has capacity predicates built
  on `MAXIMUM_KEYS = 4`, a child count and a leaf test. The node being changed
  is the class `NodeCell`, whose fields `keys` and `last_node` are updated in
  place. The nodes it points at are values, and the pure predicates are
  functions on those values.
- **The older key record** (`lib/btree/node/key.rs`), in module `LibKey`. It
  is a `(key, value, pointed_node)` triple. Equality and ordering look only at
  `key`. The subtree can be attached and detached.
- **The two cursors** (`lib/btree/node/iterator.rs`), in module `LibIterator`.
  `KeysIterator` yields the keys in order. `ChildIterator` yields each key's
  subtree and then the trailing node. Both are classes with a mutable `index`.
- **The newer node, key and tree** (`src/node.rs`, `src/key.rs`,
  `src/btree.rs`), in modules `SrcNode`, `SrcKey` and `SrcBtree`.
  `Btree::new` validates the degree `D` against `[2, 2048]` and builds an
  empty leaf root with size 0. `split_root` cuts the root's keys at `mid`. It
  promotes the middle key to a new one-key internal root. The middle key's old
  subtree goes under the left half and the old trailing node under the right
  half.

Keys are `int` and values are a type parameter `V`. The `Node` and `Key`
records of each copy are mutually recursive datatypes. `Arc` and `Box` are
plain values. `SrcNode.InOrder` lists the `(key, value)` entries reachable
from a node, each key's left subtree before the key and the trailing node
last. This listing states what a split must keep. `NodeType` is a datatype
with exactly the two variants `Internal` and `Leaf`.

Where a textbook B-tree and this code disagree, the model follows the code:
- The older `insert` keeps duplicates side by side. It does not replace the
  value of an equal key.
- The older `Key::new` takes the subtree as an argument.

Four places in `src/btree.rs` do not do what they evidently mean, and the
model takes the evident meaning:
- `Node::new(NodeType::Leaf)` (line 28) builds an empty leaf, which is
  `Default::default()` (`SrcNode.Default`).
- `Node::with` (lines 72, 73 and 78) is read as `Node::new` (`SrcNode.New`).
- `self.root.len()` (line 63) is read as the root's key count.
- That count is read before line 59 moves the keys out, so `split_root` cuts
  at half the original key count. As written it cuts at 0. "## Findings"
  models both readings. A textbook split would cut at `D - 1` instead.

## Model

| member | source | states |
|---|---|---|
| `LibKey.Eq` | lib/btree/node/key.rs:18-20 | two keys are equal exactly when `cmp` says `Equal` |
| `LibKey.Cmp` | lib/btree/node/key.rs:32-34 | `Less`, `Equal` or `Greater` exactly as the `key` fields compare |
| `LibKey.PartialCmp` | lib/btree/node/key.rs:41-43 | always `Some`, carrying the result of `cmp` |
| `LibKey.New` | lib/btree/node/key.rs:50-56 | stores key, value and subtree unchanged, and `pointed_node()` then returns that subtree |
| `LibKey.PointedNode` | lib/btree/node/key.rs:66-68 | `None` exactly when no subtree is attached, otherwise the attached subtree |
| `LibKey.SetPointedNode` | lib/btree/node/key.rs:74-76 | afterwards `pointed_node()` returns the new subtree; key and value are unchanged |
| `LibKey.UnsetPointedNode` | lib/btree/node/key.rs:78-80 | returns what `pointed_node()` returned before, leaves nothing attached, keeps key and value |
| `LibKey.EqIgnoresPayload` | lib/btree/node/key.rs:14-35 | `eq` and `cmp` give the same answer whatever the values and subtrees of the operands |
| `LibKey.CmpIsTotalOrder` | lib/btree/node/key.rs:28-35 | `cmp` is antisymmetric (swapping operands reverses it) and transitive |
| `LibKey.UnsetTwice` | lib/btree/node/key.rs:78-80 | a second `unset_pointed_node` returns `None` and changes nothing |
| `LibKey.SetThenUnset` | lib/btree/node/key.rs:74-80 | detaching right after attaching `n` returns `n` and leaves the record as detaching alone would |
| `LibKey.UnsetThenSet` | lib/btree/node/key.rs:74-80 | re-attaching the detached subtree restores the original record |
| `LibNode.NewNode` | lib/btree/node.rs:35-40 | a new node has no keys, is a leaf, has no children, is sorted, and is neither full nor overflowing |
| `LibNode.KeysCount` | lib/btree/node.rs:76-78 | the length of the key vector |
| `LibNode.IsLeaf` | lib/btree/node.rs:90-92 | true exactly when there is no trailing node |
| `LibNode.ChildCount` | lib/btree/node.rs:80-88 | 0 exactly for a leaf; for a non-leaf, the key count plus one |
| `LibNode.Overflow` | lib/btree/node.rs:65-67 | true exactly when there are more than 4 keys, and then `is_full` holds too |
| `LibNode.IsFull` | lib/btree/node.rs:69-71 | true exactly when there are at least 4 keys |
| `LibNode.IsEmpty` | lib/btree/node.rs:72-74 | as written, always the same answer as `is_full` |
| `LibNode.IsEmptyMisreports` | lib/btree/node.rs:72-74 | the as-written `is_empty` is false on a new node with no keys and true on a node with 4 keys |
| `LibNode.HasNoKeys` | lib/btree/node.rs:72-74 | the intended emptiness test: true exactly when the key count is 0, and then the node is neither full nor overflowing |
| `LibNode.VecInsert` | lib/btree/node.rs:48 | `Vec::insert(i, x)`: one element longer, `x` at `i`, the elements before `i` in place and the rest shifted up by one |
| `LibNode.VecInsertMultiset` | lib/btree/node.rs:48 | the splice adds exactly one occurrence of the new key and removes nothing |
| `LibNode.VecInsertSorted` | lib/btree/node.rs:42-56 | splicing at a position with no larger key before it and no smaller key after it keeps the vector sorted |
| `LibNode.BinarySearch` | lib/btree/node.rs:43 | `Ok(i)` names a position holding an equal key; `Err(i)` is at most the length; on a sorted vector every key before `i` is smaller and every key from `i` on is larger |
| `LibNode.NodeCell.constructor` | lib/btree/node.rs:35-40 | the owned node starts as `Node::new()` |
| `LibNode.NodeCell.Insert` | lib/btree/node.rs:42-57 | in both search outcomes the key is spliced in: the vector is the old one with the key added at one index, the count grows by one, the multiset grows by exactly that key, sortedness is kept, a duplicate ends up right before an equal old key, and `last_node` is unchanged |
| `LibNode.NodeCell.InsertKeys` | lib/btree/node.rs:59-63 | the count grows by the number of keys inserted, the multiset of keys grows by exactly those keys, sortedness is kept, and `last_node` is unchanged |
| `LibIterator.KeysIterator.constructor` | lib/btree/node/iterator.rs:32-37 | the cursor starts at index 0 over the given node |
| `LibIterator.KeysStep` | lib/btree/node/iterator.rs:17-25 | one `next()` call: below the key count, the key at the cursor and the cursor moved by one; at the end, `None` with the cursor unchanged |
| `LibIterator.KeysIterator.Next` | lib/btree/node/iterator.rs:17-25 | below the key count it returns the key at the cursor and moves the cursor by one; at the end it returns `None` and leaves the cursor there; the cursor never passes the key count |
| `LibIterator.KeysRunFrom` | lib/btree/node/iterator.rs:17-25 | from any cursor position, a series of calls returns the remaining keys in order, then `None` on every further call |
| `LibIterator.KeysIteratorYieldsKeysInOrder` | lib/btree/node/iterator.rs:17-37 | a new keys iterator yields `keys[0]` to `keys[n-1]` in order and then only `None` |
| `LibIterator.ChildIterator.constructor` | lib/btree/node/iterator.rs:83-88 | the cursor starts at index 0 over the given node |
| `LibIterator.ChildStep` | lib/btree/node/iterator.rs:55-76 | one `next()` call: the child at the cursor in visiting order (a key's subtree, possibly `None`, or the trailing node) and the cursor moved by one; after the last child, `None` with the cursor unchanged |
| `LibIterator.ChildIterator.Next` | lib/btree/node/iterator.rs:55-76 | below the key count it returns that key's subtree, even when it is `None`, and advances; at the key count of a node with keys it returns the trailing node, which must be present, and advances; after that, or at once for a node without keys, it returns `None` without moving |
| `LibIterator.ChildRunFrom` | lib/btree/node/iterator.rs:55-76 | from any cursor position, a series of calls returns the remaining children in order and then `None` on every further call; this also holds for a node without a trailing node when the calls stop before the end of the key vector |
| `LibIterator.ChildIteratorYieldsChildrenInOrder` | lib/btree/node/iterator.rs:55-88 | a new child iterator yields each key's subtree and then the trailing node; that is at most `n + 1` items, none for a node without keys, and `child_count()` items for a node with keys |
| `LibIterator.ChildIteratorOnLeaf` | lib/btree/node/iterator.rs:59-64 | on a node with keys and no trailing node, the first `n` calls return each key's subtree in order without reaching the unwrap |
| `SrcNode.New` | src/node.rs:36-42 | stores keys, trailing node and type exactly as given |
| `SrcNode.Default` | src/node.rs:23-29 | is `new` with no keys, no trailing node and type `Leaf`, and holds no entry |
| `SrcNode.Boxed` | src/node.rs:44-46 | the node and its entries are unchanged |
| `SrcNode.KeysInOrderAppend` | src/node.rs:10-17 | the entries of two key vectors side by side are those of the first followed by those of the second |
| `SrcNode.KeysInOrderLength` | src/node.rs:10-17 | a key vector has at least one entry per key |
| `SrcKey.New` | src/key.rs:45-51 | stores key and value, attaches no subtree, and the key's only entry is `(key, value)` |
| `SrcKey.Eq` | src/key.rs:18-20 | two keys are equal exactly when `cmp` says `Equal` |
| `SrcKey.Cmp` | src/key.rs:27-29 | `Less`, `Equal` or `Greater` exactly as the `key` fields compare |
| `SrcKey.PartialCmp` | src/key.rs:36-38 | always `Some`, and it agrees with `cmp` |
| `SrcKey.EqIgnoresPayload` | src/key.rs:18-29 | `eq` and `cmp` give the same answer whatever the values and subtrees of the operands |
| `SrcBtree.CheckDegree` | src/btree.rs:19-25 | `LowerBoundTooLow` exactly when `D < 2`; `LowerBoundTooLarge` exactly when `2 <= D` and `D > 2048`; no error exactly when `2 <= D <= 2048` |
| `SrcBtree.Take` | src/btree.rs:66-68 | `take(k)`: the first `k` elements, or all of them when there are fewer |
| `SrcBtree.SplitAt` | src/btree.rs:58-80 | the node `split_root` builds when it cuts at `mid`: an internal root with exactly one key, which has the key and value of the old key at `mid`, and with both a left subtree and a trailing node |
| `SrcBtree.SplitRootAsWritten` | src/btree.rs:58-80 | `split_root` with `mid` read after line 59 emptied the root: the one promoted key is the old first key, and both halves are empty |
| `SrcBtree.SplitRootNode` | src/btree.rs:58-80 | `split_root` with `mid` half the original key count: the one promoted key is the old key at `mid`; the left half has `mid` keys and the right half the remaining `n - mid - 1` |
| `SrcBtree.SplitAtShape` | src/btree.rs:58-80 | a split at `mid` gives an internal root with one key (the old key at `mid`, same key and value); it points at a left node with the first `mid` keys over the middle key's former subtree; the trailing right node has the next keys (up to `mid`) over the old trailing node; both halves take the old trailing node's type |
| `SrcBtree.SplitAtInOrder` | src/btree.rs:65-78 | the split root's entries are those of the first `mid + 1` keys, then those of the keys `take(mid)` keeps, then those of the old trailing node |
| `SrcBtree.SplitAtEntries` | src/btree.rs:65-78 | when `take(mid)` keeps every remaining key, the split root has exactly the old root's entries, in the same order |
| `SrcBtree.SplitRootNodeHalves` | src/btree.rs:58-80 | with `mid` half the key count, the new root is internal and holds the old key at `mid`; the left half has `mid` keys and the right half the rest (at most `mid`), so `take(mid)` drops nothing and left, middle and right joined are the old key vector |
| `SrcBtree.SplitRootNodeKeepsEntries` | src/btree.rs:58-80 | with `mid` half the key count, the split root carries exactly the old root's entries, in the same order |
| `SrcBtree.SplitRootAsWrittenLosesKeys` | src/btree.rs:59-68 | with `mid` read after the keys were moved out, as line 63 does, a root with two or more keys splits into one key over two empty halves, and entries are lost |
| `SrcBtree.Btree.Init` | src/btree.rs:27-30 | the accepted tree has an empty leaf root and size 0, so it is empty with length 0 and its size counts its entries |
| `SrcBtree.Btree.New` | src/btree.rs:19-31 | fails with the error `CheckDegree` gives exactly when it gives one; otherwise returns a fresh tree with an empty leaf root, size 0, `empty()` true and `len() == 0` |
| `SrcBtree.Btree.Empty` | src/btree.rs:33-35 | true exactly when `len()` is 0 |
| `SrcBtree.Btree.Len` | src/btree.rs:37-39 | returns `size` unchanged |
| `SrcBtree.Btree.SplitRoot` | src/btree.rs:58-81 | the root becomes the split of the old root at half its key count; its entries and their order are unchanged, so a size that counted them still does |

## Findings

| source | as written | input that shows it | evidently intended | confidence | as-written member | corrected member |
|---|---|---|---|---|---|---|
| src/btree.rs:63 | `mid` is computed from the root after line 59 moved its keys out, so it is 0; the left and right halves get no keys and every key after the first is dropped | a root with keys `[1, 2, 3]` and a trailing node splits into a root with key 1 over two empty nodes | `mid` is half the original key count, so that left, middle and right together are the original keys | high, not executed | `SrcBtree.SplitRootAsWritten`, `SrcBtree.SplitRootAsWrittenLosesKeys` | `SrcBtree.SplitRootNode`, `SrcBtree.SplitRootNodeHalves`, `SrcBtree.SplitRootNodeKeepsEntries` |
| lib/btree/node.rs:72-74 | `is_empty` tests `keys.len() >= MAXIMUM_KEYS`, the same test as `is_full` | `Node::new()` has no keys and `is_empty()` is false; a node with 4 keys has `is_empty()` true | `is_empty` is true exactly when the node holds no key | medium, not executed | `LibNode.IsEmpty`, `LibNode.IsEmptyMisreports` | `LibNode.HasNoKeys` |

## Left out

- `Node::insert` and `Node::remove` in `src/node.rs` are unimplemented stubs (lines 53-59), so they are not modelled.
- `Btree::insert` ends in an unimplemented stub (src/btree.rs:55) and `Btree::remove` only delegates to one (lines 83-85), so neither is modelled.
- Search, descent-based insert and delete, merge, rotation and predecessor or successor swaps have no code in either copy. They are not modelled.
- The `Display` implementations of the error types only format strings. `NodeError` and `NodeOperationError` are never used. `BtreeError` is kept as the error of `Btree::new`.
- `src/main.rs` is an empty entry point. Its `NodePointer` alias is `Option<Node>` here.
- `Arc`/`Box` sharing and `Vec::with_capacity` hints have no behaviour to verify. Nodes and keys are plain values.
- The key type is fixed to `int`. Counts are unbounded naturals: no modelled operation gets near the `usize` limit.
- `pointed_node_mut` and the private `key()` and `value()` getters are plain borrows. `LibKey.PointedNode` covers what they read.
- LibKey.SetPointedNode: it returns the updated record instead of overwriting the field in place, because a key is a value stored inside its node's datatype. The same goes for `LibKey.UnsetPointedNode`.
- LibNode.BinarySearch: `slice::binary_search` belongs to Rust's standard library, not to this repository. The model uses one concrete bisection. Which of several equal keys that bisection finds is unspecified in the library. The contract states only what the library documents.
- The iterators' borrow lifetime is not modelled: each iterator holds the node value it was created over.
- LibIterator.ChildIterator.Next: requires the trailing node when the cursor reaches the end of a non-empty key vector, because line 67 unwraps it. No code of the older copy ever sets `last_node`: only `Node::new` writes it, to `None`. So every older node with keys makes that call panic. `LibIterator.ChildIteratorOnLeaf` states what the calls before it return.
- SrcBtree.Btree.SplitRoot: requires a trailing node, because line 61 unwraps it. It also requires at least one key, because line 67 unwraps the middle key. `Btree::insert` would call it on an overflowing leaf root, where line 61 panics. That path runs through the unimplemented `Node::insert`, so it is not modelled.
