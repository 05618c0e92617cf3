# ground: a Dafny model of the B-tree list and the byte, bit and arithmetic utilities

This project is a Dafny model of the core of the `ground` Java library. It covers the
following parts, and proves properties about each:

- **`BTreeList`.** A positional list stored in an implicit-key B-tree. Every node caches the
  size of its subtree, and those sizes play the part of keys. The model covers:
  - index lookup (`FinderByIndex`);
  - insertion, with node splits and root creation;
  - removal, with borrowing, merging and root collapse;
  - the bulk append along the right spine and its repair pass;
  - the cursor walks of `forEach` and of the iterator;
  - `toArray` and `clone`.
- **The byte and bit layer.**
  - A little-endian view over a byte array (`ByteArray.UncheckedOnBytes`).
  - A bit view over it (`BitArray.OnByteArray`), with population count and
    set-bit search.
  - A packed array of fixed-width integers (`PacketArray`).
  - The little-endian helpers beneath them (`Bits`).
- **Byte cursors.** A growable byte sink (`ByteDrain.OnArray`) and a byte reader
  (`ByteFlux.OnByteArray`).
- **Integer arithmetic.**
  - Unsigned division by an invariant divisor, done as a multiplication by a magic number
    followed by a shift (`URecDiv`).
  - The ceiling-division and log2 helpers (`DMath`).
- **Small utilities.**
  - `XArray`: array growth and prefix test.
  - `Extensions`: the right-to-left file-extension iterator.
  - `Index`: the found/insert-position encoding.
  - `Bounds.clamp`.
  - `CursorIterator`.

Java `byte`, `short`, `int` and `long` values that hold bit patterns are modelled as their
unsigned readings (`uint8` … `uint64`, in `JavaInt`). This covers the byte contents, the
words read and written, the dividends and divisors of `URecDiv`, and the arguments of the
`DMath` bit functions.

Values whose sign the code relies on keep the signed types `int8` … `int64`:

- `Index` and `DMath.Cdiv`/`Ceil` work on `int32`.
- `XArray.GrowSize`/`GrowFree` work on `int32`, with Java's wrap-around written out.
- In `Bits`, `UByte`/`UShort`/`UInt` take signed values, and `Low`/`High`/`Concat` split and
  join a signed `int64`.
- `PacketArray.set`/`orblend` take an `int64`.

`Bounds.Clamp` and the view indices are unbounded integers.

The JVM intrinsics have specification functions, in `BitOps` unless noted:

| intrinsic | specification function |
|---|---|
| `bitCount` | `PopCount` |
| `numberOfTrailingZeros` | `Ntz` |
| `lowestOneBit` | `LowestOneBit` |
| `numberOfLeadingZeros` | `DMath.Nlz32` / `DMath.Nlz64` |
| `&` | `JavaInt.And` |
| `\|`, `^`, `<<`, `>>>` | `Or`, `Xor`, `Shl`, `Shr` |

The VarHandle little-endian views become `LE`/`LEBytes` over byte sequences.

Each reading operation is specified against an independent reference:

- A bit of a store is `StoreBit(C, q)`: bit `q % 8` of byte `q / 8`.
- `popcnt`, `next1` and `next1n` are proved equal to the plain scans `Count`, `Next1` and
  `NthOne` over `StoreBit`.
- A packed array's contents are `Entries()`: the sequence of width-bit fields that
  the bytes hold.
- The list's contents are `Items(root)`: the in-order sequence of leaf items.

`BTreeList` is modelled on values. A node is a datatype `Node(height, size, data)`, whose
slots are either items or child nodes, and the class `BTreeList` holds `order` and the
`root`. Consequences:

- Insertion and removal rebuild the path from the root to the leaf (`Inserted`, `Removed`).
  Java's loops up the parent pointers become recursion back up that path, and every case of
  the Java code is kept:
  - vacant slot or full node;
  - split at `n = order/2 + 1`;
  - new root;
  - borrow from the left or right sibling, merge into the left or right sibling;
  - root collapse.
- Lookup, `first`/`last`, `forEach`, the iterator, `toArray` and the bulk append's fill loop
  keep the Java loops, with invariants.
- The rest of the bulk append is recursion down the right spine:
  - `createLeafAfter` walks up to the first non-full ancestor, wrapping the new leaf in a new
    parent for every full level it passes. It becomes the recursion `LinkLeaf` /
    `CreateLeafAfter` (lemma `LinkLeafSpine`).
  - The top-down loop of `ensureRightBranchInvariants` becomes `FixSpine` (lemma
    `FixSpineOk`).
- The structural invariant `Ok` covers:
  - occupancy `(order+1)/2 ≤ used ≤ order` for every non-root node;
  - at least two children for an internal root;
  - equal heights;
  - cached sizes equal to the subtree sizes.

## Model

| member | source | states |
|---|---|---|
| BTreeList.BTreeList.constructor | src/main/java/com/seismotech/ground/util/BTreeList.java:60-63 | a new list of the given order is valid and empty |
| BTreeList.BTreeList.Default | src/main/java/com/seismotech/ground/util/BTreeList.java:58 | the no-argument list has order 64 and is empty |
| BTreeList.BTreeList.WithRoot | src/main/java/com/seismotech/ground/util/BTreeList.java:65-68 | a list built on a well-formed tree is valid and holds that tree |
| BTreeList.BTreeList.IsEmpty | src/main/java/com/seismotech/ground/util/BTreeList.java:72 | true exactly when the contents are empty |
| BTreeList.BTreeList.LSize | src/main/java/com/seismotech/ground/util/BTreeList.java:74 | the cached root size is the number of elements |
| BTreeList.BTreeList.Size | src/main/java/com/seismotech/ground/util/BTreeList.java:77-82 | the element count when it is below 2^31-1, IllegalState otherwise |
| BTreeList.BTreeList.CheckIndex | src/main/java/com/seismotech/ground/util/BTreeList.java:649-651 | accepts exactly 0 ≤ i < size |
| BTreeList.BTreeList.CheckRange | src/main/java/com/seismotech/ground/util/BTreeList.java:653-655 | accepts exactly 0 ≤ i ≤ size |
| BTreeList.BTreeList.Get | src/main/java/com/seismotech/ground/util/BTreeList.java:87-92 | element i of the contents for 0 ≤ i < size, IndexOutOfBounds otherwise |
| BTreeList.BTreeList.Set | src/main/java/com/seismotech/ground/util/BTreeList.java:97-106 | returns the old element i and changes only position i; the tree keeps its shape (heights, used counts, sizes); out of range it throws and leaves the tree unchanged |
| BTreeList.BTreeList.First | src/main/java/com/seismotech/ground/util/BTreeList.java:108-115 | the first element, IllegalState on an empty list |
| BTreeList.BTreeList.Last | src/main/java/com/seismotech/ground/util/BTreeList.java:117-124 | the last element, IllegalState on an empty list |
| BTreeList.BTreeList.Clear | src/main/java/com/seismotech/ground/util/BTreeList.java:127 | the list becomes empty and stays valid |
| BTreeList.BTreeList.Add | src/main/java/com/seismotech/ground/util/BTreeList.java:131-134 | appends e: contents become old contents + [e], returns true |
| BTreeList.BTreeList.AddAll | src/main/java/com/seismotech/ground/util/BTreeList.java:137-141 | appends xs in order and restores the invariant: contents become old contents + xs |
| BTreeList.BTreeList.BulkInsert | src/main/java/com/seismotech/ground/util/BTreeList.java:151-163 | fills the last leaf and new leaves along the right spine; contents become old + xs, and the relaxed spine invariant holds |
| BTreeList.BTreeList.FillRound | src/main/java/com/seismotech/ground/util/BTreeList.java:155-162 | one round of the fill loop appends a non-empty next chunk of xs and keeps the spine invariant |
| BTreeList.BTreeList.EnsureRightBranchInvariants | src/main/java/com/seismotech/ground/util/BTreeList.java:186-213 | the repair pass turns a spine-relaxed tree into a valid one with the same contents |
| BTreeList.BTreeList.AddAt | src/main/java/com/seismotech/ground/util/BTreeList.java:146-149 | for 0 ≤ i ≤ size, inserts e at i (old[..i] + [e] + old[i..]) and keeps the tree valid; otherwise IndexOutOfBounds and no change |
| BTreeList.BTreeList.Remove | src/main/java/com/seismotech/ground/util/BTreeList.java:318-327 | for 0 ≤ i < size, returns element i and deletes it (old[..i] + old[i+1..]) keeping the tree valid; otherwise IndexOutOfBounds and no change |
| BTreeList.BTreeList.ForEach | src/main/java/com/seismotech/ground/util/BTreeList.java:507-535 | the elements visited by the cursor walk are exactly the contents, in order |
| BTreeList.BTreeList.Iterator | src/main/java/com/seismotech/ground/util/BTreeList.java:538 | a fresh iterator over exactly the contents, positioned before the first |
| BTreeList.BTreeList.Clone | src/main/java/com/seismotech/ground/util/BTreeList.java:487-488 | a fresh list with the same order, the same tree and the same contents |
| BTreeList.BTreeList.ToArray | src/main/java/com/seismotech/ground/util/BTreeList.java:618-626 | the contents in order, in tmp when it is big enough (rest of tmp untouched) or in a fresh array of length size; IllegalState when size exceeds the array bound |
| BTreeList.BTreeList.ToArrayFrom | src/main/java/com/seismotech/ground/util/BTreeList.java:628-631 | writes the node's items at [next, next+|items|) and returns the end, nothing else changes |
| BTreeList.BTreeList.ToArrayLeaf | src/main/java/com/seismotech/ground/util/BTreeList.java:633-636 | a leaf's items are copied at next and the end offset returned |
| BTreeList.BTreeList.ToArrayInner | src/main/java/com/seismotech/ground/util/BTreeList.java:638-644 | an inner node's items are the children's items written one after the other |
| BTreeList.Search | src/main/java/com/seismotech/ground/util/BTreeList.java:584-600 | the searchLeaf loop reaches the next non-exhausted leaf, or reports the end after every element has been seen |
| BTreeList.VisitLeaf | src/main/java/com/seismotech/ground/util/BTreeList.java:513-518 | the leaf loop yields the leaf's items |
| BTreeList.Climb | src/main/java/com/seismotech/ground/util/BTreeList.java:526-530 | climbing resets the cursor of the level and advances the parent's, keeping the walk invariant |
| BTreeList.BTreeIterator.constructor | src/main/java/com/seismotech/ground/util/BTreeList.java:547-554 | a valid iterator over the tree with nothing seen yet |
| BTreeList.BTreeIterator.SearchLeaf | src/main/java/com/seismotech/ground/util/BTreeList.java:584-600 | finds the next leaf with items, or ends with every element seen |
| BTreeList.BTreeIterator.AdvanceLeaf | src/main/java/com/seismotech/ground/util/BTreeList.java:573-582 | after an exhausted leaf, moves to the next one or reports the end |
| BTreeList.BTreeIterator.EnsureNext | src/main/java/com/seismotech/ground/util/BTreeList.java:569-571 | true exactly when unseen elements remain; then the cursor stands on one |
| BTreeList.BTreeIterator.HasNext | src/main/java/com/seismotech/ground/util/BTreeList.java:556-558 | true exactly when unseen elements remain, and nothing is consumed |
| BTreeList.BTreeIterator.Next | src/main/java/com/seismotech/ground/util/BTreeList.java:560-567 | returns the next element in order and marks it seen; NoSuchElement at the end |
| BTreeList.BTreeIterator.Remove | src/main/java/com/seismotech/ground/util/BTreeList.java:602-604 | always throws UnsupportedOperation |
| BTreeList.HasNextAfterEnd | src/main/java/com/seismotech/ground/util/BTreeList.java:569-571 | after the walk has ended at the root, the code's test `cursor0 < node.used` still holds for a tree of height > 0 |
| BTreeFind.Locate | src/main/java/com/seismotech/ground/util/BTreeList.java:469-482 | the chosen child index is in range |
| BTreeFind.LocateItems | src/main/java/com/seismotech/ground/util/BTreeList.java:469-482 | walk1's child i and offset r: the items before child i plus r give the position, and r falls inside child i |
| BTreeFind.Descend | src/main/java/com/seismotech/ground/util/BTreeList.java:469-482 | on a valid node the chosen slot is a child of height one less, holding the wanted element at offset r |
| BTreeFind.Finder.constructor | src/main/java/com/seismotech/ground/util/BTreeList.java:453-456 | the finder starts at the given node and offset |
| BTreeFind.Finder.Walk1 | src/main/java/com/seismotech/ground/util/BTreeList.java:469-482 | moves to the child that holds the offset and reduces the offset accordingly |
| BTreeFind.Finder.Walk2Leaf | src/main/java/com/seismotech/ground/util/BTreeList.java:458-460 | ends at a leaf whose slot at the final offset holds the element at the start offset |
| BTreeInsert.InsertFullSplit | src/main/java/com/seismotech/ground/util/BTreeList.java:295-312 | a full node split at n = order/2+1: the left keeps the first n entries of the data with v inserted, the right gets the rest |
| BTreeInsert.InsertFullItems | src/main/java/com/seismotech/ground/util/BTreeList.java:295-312 | the two halves of a split hold the items of the node with v inserted at i |
| BTreeInsert.HalvesFit | src/main/java/com/seismotech/ground/util/BTreeList.java:298 | both halves of a split have between (order+1)/2 and order entries |
| BTreeInsert.VacantItems | src/main/java/com/seismotech/ground/util/BTreeList.java:287-293 | inserting into a vacant slot inserts the slot's items at that position |
| BTreeInsert.InsertLeafItems | src/main/java/com/seismotech/ground/util/BTreeList.java:237-253 | inserting into a leaf (vacant or full) spreads the leaf's items with e inserted at i |
| BTreeInsert.InsertInnerItems | src/main/java/com/seismotech/ground/util/BTreeList.java:255-273 | inserting the overflow node after a child inserts its items at that position |
| BTreeInsert.InsertBelowItems | src/main/java/com/seismotech/ground/util/BTreeList.java:220-235 | the insertion below a node yields the node's items with e inserted at i |
| BTreeInsert.InsertLeafOk | src/main/java/com/seismotech/ground/util/BTreeList.java:237-253 | a leaf insertion keeps occupancy and sizes, and a split gives two valid leaves |
| BTreeInsert.InsertInnerOk | src/main/java/com/seismotech/ground/util/BTreeList.java:255-285 | an inner insertion keeps the node valid, and a split gives two valid nodes with fixed sizes |
| BTreeInsert.InsertBelowOk | src/main/java/com/seismotech/ground/util/BTreeList.java:226-235 | the insertion below a node gives a valid node and a valid overflow sibling of the same height |
| BTreeInsert.InsertedTree | src/main/java/com/seismotech/ground/util/BTreeList.java:226-235 | insertion keeps the whole tree valid and inserts e at position i; the height either stays or grows by one, and when it grows the new root holds exactly two children of the old height whose sizes add up to its own |
| BTreeRemove.Without | src/main/java/com/seismotech/ground/util/BTreeList.java:396-398 | removing slot i shifts the later slots down by one |
| BTreeRemove.BorrowLeftOk | src/main/java/com/seismotech/ground/util/BTreeList.java:344-355 | borrowing the left sibling's last entry leaves both nodes valid |
| BTreeRemove.BorrowRightOk | src/main/java/com/seismotech/ground/util/BTreeList.java:363-375 | borrowing the right sibling's first entry leaves both nodes valid |
| BTreeRemove.MergeFits | src/main/java/com/seismotech/ground/util/BTreeList.java:356-382 | a merge of a short node into a sibling at minimum fits in one node |
| BTreeRemove.MergeOk | src/main/java/com/seismotech/ground/util/BTreeList.java:356-382 | the merged node is valid, at least minimal, and holds the items of both |
| BTreeRemove.BorrowLeftItems | src/main/java/com/seismotech/ground/util/BTreeList.java:344-355 | borrowing from the left keeps the items of the pair in order |
| BTreeRemove.BorrowRightItems | src/main/java/com/seismotech/ground/util/BTreeList.java:363-375 | borrowing from the right keeps the items of the pair in order |
| BTreeRemove.RebalanceItems | src/main/java/com/seismotech/ground/util/BTreeList.java:341-386 | rebalancing a short child keeps the items of the parent in order |
| BTreeRemove.RebalanceLeftOk | src/main/java/com/seismotech/ground/util/BTreeList.java:344-362 | a short child borrowing from or merging into its left sibling leaves the parent's entries valid |
| BTreeRemove.RebalanceRightOk | src/main/java/com/seismotech/ground/util/BTreeList.java:363-382 | a short first child borrowing from or merging into its right sibling leaves the parent's entries valid |
| BTreeRemove.RebalanceOk | src/main/java/com/seismotech/ground/util/BTreeList.java:341-386 | rebalancing a short child leaves valid children in the parent |
| BTreeRemove.RemoveAtOk | src/main/java/com/seismotech/ground/util/BTreeList.java:336-394 | removal below a node gives a valid node without element r |
| BTreeRemove.RemoveLeafOk | src/main/java/com/seismotech/ground/util/BTreeList.java:387-389 | removing a slot from a leaf keeps the leaf valid and drops that item |
| BTreeRemove.RemoveUp | src/main/java/com/seismotech/ground/util/BTreeList.java:341-386 | one step of the loop up: after removing below child j, the rebalanced parent is valid and lacks the element |
| BTreeRemove.RemovedTree | src/main/java/com/seismotech/ground/util/BTreeList.java:336-394 | removal keeps the whole tree valid and deletes element i; an internal root left with one child is replaced by that child |
| BTreeAccess.NonEmpty | src/main/java/com/seismotech/ground/util/BTreeList.java:72 | a valid non-empty node holds at least one item |
| BTreeAccess.EmptyRoot | src/main/java/com/seismotech/ground/util/BTreeList.java:72 | a node has no slots exactly when it holds no items |
| BTreeAccess.FirstChild | src/main/java/com/seismotech/ground/util/BTreeList.java:108-115 | the first element of an inner node is the first element of its first child |
| BTreeAccess.LastChild | src/main/java/com/seismotech/ground/util/BTreeList.java:117-124 | the last element of an inner node is the last element of its last child |
| BTreeAccess.SetAtOk | src/main/java/com/seismotech/ground/util/BTreeList.java:97-106 | writing at position r changes only item r and keeps the shape and validity |
| BTreeAccess.SetAtUp | src/main/java/com/seismotech/ground/util/BTreeList.java:97-106 | replacing child j by a same-shape child with item r' changed changes exactly item r of the parent |
| BTreeAccess.AppendIsInsert | src/main/java/com/seismotech/ground/util/BTreeList.java:215-218 | appending down the last children equals inserting at position size |
| BTreeAccess.AppendedTree | src/main/java/com/seismotech/ground/util/BTreeList.java:215-218 | appending keeps the tree valid and adds e at the end |
| BTreeAccess.CloneEqual | src/main/java/com/seismotech/ground/util/BTreeList.java:491-504 | the deep copy equals the source tree |
| BTreeBulk.LastLeaf | src/main/java/com/seismotech/ground/util/BTreeList.java:434-447 | the walk down the last children ends at a leaf |
| BTreeBulk.Wrap | src/main/java/com/seismotech/ground/util/BTreeList.java:158 | the slots written hold the items one by one |
| BTreeBulk.OkSpine | src/main/java/com/seismotech/ground/util/BTreeList.java:152-153 | a valid tree satisfies the relaxed spine invariant and its last leaf is non-empty |
| BTreeBulk.LinkLeafSpine | src/main/java/com/seismotech/ground/util/BTreeList.java:165-179 | creating a leaf after the last one keeps the spine invariant and the items |
| BTreeBulk.CreateLeafAfterSpine | src/main/java/com/seismotech/ground/util/BTreeList.java:165-179 | the new leaf becomes the last leaf, the items do not change, and a new root appears when every spine node is full |
| BTreeBulk.WrapItems | src/main/java/com/seismotech/ground/util/BTreeList.java:158 | the wrapped slots are valid leaf slots whose items are the input |
| BTreeBulk.FillLastSpine | src/main/java/com/seismotech/ground/util/BTreeList.java:157-161 | filling the last leaf appends xs and keeps the spine invariant and all sizes |
| BTreeBulk.FillStep | src/main/java/com/seismotech/ground/util/BTreeList.java:155-162 | one fill round appends the chunk to the tree's items |
| BTreeBulk.MoveSpine | src/main/java/com/seismotech/ground/util/BTreeList.java:190-211 | moving entries from the second-to-last node to a short last node brings it to minimum and keeps both valid |
| BTreeBulk.MoveItems | src/main/java/com/seismotech/ground/util/BTreeList.java:194-197 | moving entries keeps the items of the pair in order |
| BTreeBulk.FixSpineOk | src/main/java/com/seismotech/ground/util/BTreeList.java:186-213 | the repair pass gives a valid tree with the same items |
| BTreeBulk.FixSpineKept | src/main/java/com/seismotech/ground/util/BTreeList.java:192 | a last node at minimum is left as it is and the pass goes on below it |
| BTreeBulk.FixSpineMoved | src/main/java/com/seismotech/ground/util/BTreeList.java:193-211 | a short last node is refilled from its left sibling and the pass goes on below it |
| BTreeBulk.FixStep | src/main/java/com/seismotech/ground/util/BTreeList.java:189-191 | the second-to-last and last children of a spine node are its last two slots |
| BTreeWalk.Start | src/main/java/com/seismotech/ground/util/BTreeList.java:508-511 | all cursors at 0 at the root starts a walk with nothing seen |
| BTreeWalk.WalkRest | src/main/java/com/seismotech/ground/util/BTreeList.java:512-534 | the seen elements, the rest of the current node and what lies after the path make up all items |
| BTreeWalk.WalkDown | src/main/java/com/seismotech/ground/util/BTreeList.java:523-525 | descending into child cursors[l] keeps the walk invariant |
| BTreeWalk.WalkFinished | src/main/java/com/seismotech/ground/util/BTreeList.java:526-530 | a node whose cursor is exhausted has been completely seen |
| BTreeWalk.WalkLeaf | src/main/java/com/seismotech/ground/util/BTreeList.java:513 | at a leaf with cursor 0, exactly the elements before the path have been seen |
| BTreeWalk.WalkUp | src/main/java/com/seismotech/ground/util/BTreeList.java:526-530 | climbing one level (reset this cursor, advance the parent's) keeps the walk invariant |
| BTreeWalk.WalkEnded | src/main/java/com/seismotech/ground/util/BTreeList.java:531-532 | an exhausted root means every element has been seen |
| BTreeWalk.WalkNext | src/main/java/com/seismotech/ground/util/BTreeList.java:560-567 | at a leaf, the unseen part of the leaf fits inside the remaining elements, and the element at cursor0 is the next one |
| BTreeWalk.WalkStep | src/main/java/com/seismotech/ground/util/BTreeList.java:563 | taking the element at cursor0 appends it to what has been seen |
| BTreeWalk.AtOk | src/main/java/com/seismotech/ground/util/BTreeList.java:523-525 | every node reached by the walk is valid, and non-root ones are at least minimal |
| BTreeNode.ForestConcat | src/main/java/com/seismotech/ground/util/BTreeList.java:638-644 | the items of a slot sequence split over concatenation |
| BTreeNode.SizesItems | src/main/java/com/seismotech/ground/util/BTreeList.java:400-402 | the sum of cached child sizes equals the number of items |
| BTreeNode.OkSizes | src/main/java/com/seismotech/ground/util/BTreeList.java:275-285 | a valid node's size is the sum of its children's sizes |
| BTreeNode.LeafForest | src/main/java/com/seismotech/ground/util/BTreeList.java:633-636 | a leaf's items are its slots in order |
| ByteArray.UncheckedOnBytes.constructor | src/main/java/org/seismotech/ground/mem/ByteArray.java:129-133 | the view starts at init and has max(0, end-init) bytes |
| ByteArray.UncheckedOnBytes.Size | src/main/java/org/seismotech/ground/mem/ByteArray.java:136 | the view length |
| ByteArray.UncheckedOnBytes.Subarray | src/main/java/org/seismotech/ground/mem/ByteArray.java:139-141 | a view of the same store at off+init of length max(0, end-init) |
| ByteArray.UncheckedOnBytes.SubarrayClamped | src/main/java/org/seismotech/ground/mem/ByteArray.java:38-42 | init clamped into [0,size], end into [effinit,size]; for in-range bounds the plain subarray |
| ByteArray.UncheckedOnBytes.Get | src/main/java/org/seismotech/ground/mem/ByteArray.java:143 | byte i of the view |
| ByteArray.UncheckedOnBytes.GetShort | src/main/java/org/seismotech/ground/mem/ByteArray.java:144 | little-endian value of view bytes [i, i+2) |
| ByteArray.UncheckedOnBytes.GetInt | src/main/java/org/seismotech/ground/mem/ByteArray.java:145 | little-endian value of view bytes [i, i+4) |
| ByteArray.UncheckedOnBytes.GetLong | src/main/java/org/seismotech/ground/mem/ByteArray.java:146 | little-endian value of view bytes [i, i+8) |
| ByteArray.UncheckedOnBytes.GetPaddedShort | src/main/java/org/seismotech/ground/mem/ByteArray.java:153-156 | little-endian value of the at most 2 bytes left in the view from i, zero-extended |
| ByteArray.UncheckedOnBytes.GetPaddedInt | src/main/java/org/seismotech/ground/mem/ByteArray.java:158-167 | little-endian value of the at most 4 bytes left in the view from i, zero-extended |
| ByteArray.UncheckedOnBytes.GetPaddedLong | src/main/java/org/seismotech/ground/mem/ByteArray.java:169-178 | little-endian value of the at most 8 bytes left in the view from i, zero-extended |
| ByteArray.UncheckedOnBytes.Set | src/main/java/org/seismotech/ground/mem/ByteArray.java:148 | store byte off+i becomes v, nothing else changes |
| ByteArray.UncheckedOnBytes.SetShort | src/main/java/org/seismotech/ground/mem/ByteArray.java:149 | the 2 bytes at off+i become the little-endian encoding of v |
| ByteArray.UncheckedOnBytes.SetInt | src/main/java/org/seismotech/ground/mem/ByteArray.java:150 | the 4 bytes at i become the encoding of v, bytes outside the view unchanged |
| ByteArray.UncheckedOnBytes.SetLong | src/main/java/org/seismotech/ground/mem/ByteArray.java:151 | the 8 bytes at i become the encoding of v, bytes outside the view unchanged |
| ByteArray.UncheckedOnBytes.SetClampedShort | src/main/java/org/seismotech/ground/mem/ByteArray.java:180-184 | writes the low min(2, len-i) bytes of v at i, nothing else |
| ByteArray.UncheckedOnBytes.SetClampedInt | src/main/java/org/seismotech/ground/mem/ByteArray.java:186-191 | writes the low min(4, len-i) bytes of v at i, nothing past the view's end |
| ByteArray.UncheckedOnBytes.SetClampedLong | src/main/java/org/seismotech/ground/mem/ByteArray.java:193-198 | writes the low min(8, len-i) bytes of v at i, nothing past the view's end |
| ByteArray.UncheckedOnBytes.Clear | src/main/java/org/seismotech/ground/mem/ByteArray.java:200-203 | zeroes exactly the store bytes [off+init, off+end) |
| ByteArray.UncheckedOnBytes.ClearBits | src/main/java/org/seismotech/ground/mem/ByteArray.java:205-217 | clears exactly the view bits [8·init+sinit, 8·end+send), every other bit and every byte outside the view unchanged |
| ByteArray.UncheckedOnBytes.ClearHeadBits | src/main/java/org/seismotech/ground/mem/ByteArray.java:207-211 | the first part: the head byte masked and the whole bytes zeroed |
| ByteArray.UncheckedOnBytes.ClearTailBits | src/main/java/org/seismotech/ground/mem/ByteArray.java:212-216 | the second part: the end byte masked, keeping the head bits when init == end |
| ByteArray.UncheckedOnBytes.ClearAll | src/main/java/org/seismotech/ground/mem/ByteArray.java:89 | zeroes the whole view |
| ByteArray.UncheckedOnBytes.GetBulk | src/main/java/org/seismotech/ground/mem/ByteArray.java:219-225 | copies t = min(len-i, count) bytes into the target and returns t; 0 and no change when t ≤ 0 |
| ByteArray.UncheckedOnBytes.SetBulk | src/main/java/org/seismotech/ground/mem/ByteArray.java:227-233 | copies t = min(len-i, count) bytes from the source and returns t; 0 and no change when t ≤ 0 |
| ByteArray.UncheckedOnBytes.GetAllInto | src/main/java/org/seismotech/ground/mem/ByteArray.java:95 | the bulk get with the whole target array: returns max(0, min(len − i, trg.length)), copies that many bytes from position i to the front of trg, and leaves trg unchanged when the count is 0 |
| ByteArray.UncheckedOnBytes.SetAllFrom | src/main/java/org/seismotech/ground/mem/ByteArray.java:99 | the bulk set with the whole source array: returns max(0, min(len − i, src.length)), copies that many bytes of src into the view at i, and leaves the store unchanged when the count is 0 |
| ByteArray.PaddedLe32 | src/main/java/org/seismotech/ground/mem/ByteArray.java:159-166 | the word read at j masked to tail bytes, or the tail read, is the value of the first min(4, tail) bytes |
| ByteArray.PaddedLe64 | src/main/java/org/seismotech/ground/mem/ByteArray.java:170-177 | the same for 8-byte words |
| ByteArray.PaddedLe32At | src/main/java/org/seismotech/ground/mem/ByteArray.java:158-167 | the padded read in terms of the view contents |
| ByteArray.PaddedLe64At | src/main/java/org/seismotech/ground/mem/ByteArray.java:169-178 | the padded read in terms of the view contents |
| ByteArray.MaskedLe32 | src/main/java/org/seismotech/ground/mem/ByteArray.java:163 | masking a word with (1 << 8·tail) - 1 keeps exactly its first tail bytes |
| ByteArray.MaskedLe64 | src/main/java/org/seismotech/ground/mem/ByteArray.java:174 | masking a long word with (1 << 8·tail) - 1 keeps exactly its first tail bytes |
| ByteArray.SpliceView | src/main/java/org/seismotech/ground/mem/ByteArray.java:149-151 | a write inside the view is a write into the view's contents and leaves the rest of the store unchanged |
| ByteArray.ClearedView | src/main/java/org/seismotech/ground/mem/ByteArray.java:205-217 | the two clearing steps zero exactly the requested bit range |
| ByteArray.ClampedThenPadded | src/main/java/org/seismotech/ground/mem/ByteArray.java:180-198 | a clamped write followed by a padded read at the same index gives the value masked to the bytes available |
| BitArray.OnByteArray.constructor | src/main/java/org/seismotech/ground/mem/BitArray.java:91-95 | the bit view over the store at bit offset bitoff with bitlen bits |
| BitArray.OnByteArray.Size | src/main/java/org/seismotech/ground/mem/BitArray.java:97 | the number of bits |
| BitArray.OnByteArray.Block8 | src/main/java/org/seismotech/ground/mem/BitArray.java:264 | the byte that holds bit off+i |
| BitArray.OnByteArray.Shift8 | src/main/java/org/seismotech/ground/mem/BitArray.java:265 | the position of bit off+i inside its byte |
| BitArray.OnByteArray.Get | src/main/java/org/seismotech/ground/mem/BitArray.java:99-101 | bit off+i of the store, 0 or 1 |
| BitArray.OnByteArray.Has | src/main/java/org/seismotech/ground/mem/BitArray.java:99-101 | whether bit off+i of the store is set |
| BitArray.OnByteArray.Set | src/main/java/org/seismotech/ground/mem/BitArray.java:103-106 | bit off+i becomes v & 1, every other bit unchanged |
| BitArray.OnByteArray.SetBool | src/main/java/org/seismotech/ground/mem/BitArray.java:103-106 | bit off+i becomes 1 or 0 as v, every other bit unchanged |
| BitArray.OnByteArray.SetOne | src/main/java/org/seismotech/ground/mem/BitArray.java:108-111 | bit off+i becomes 1, every other bit unchanged |
| BitArray.OnByteArray.ClearOne | src/main/java/org/seismotech/ground/mem/BitArray.java:113-116 | bit off+i becomes 0, every other bit unchanged |
| BitArray.OnByteArray.Popcnt | src/main/java/org/seismotech/ground/mem/BitArray.java:118-139 | the number of set bits in [init, end), 0 when end ≤ init |
| BitArray.OnByteArray.PopcntScan | src/main/java/org/seismotech/ground/mem/BitArray.java:119-138 | the byte/long/int/byte/tail scan counts the set bits of the range |
| BitArray.OnByteArray.PopcntHead | src/main/java/org/seismotech/ground/mem/BitArray.java:124-126 | the partial first byte contributes its set bits from the start |
| BitArray.OnByteArray.PopcntBytes | src/main/java/org/seismotech/ground/mem/BitArray.java:127-128 | the long and int steps add the set bits of the words read |
| BitArray.OnByteArray.PopcntSingles | src/main/java/org/seismotech/ground/mem/BitArray.java:129 | the single-byte loop adds each byte's set bits |
| BitArray.OnByteArray.PopcntTail | src/main/java/org/seismotech/ground/mem/BitArray.java:131-137 | the partial last byte contributes its set bits below the end |
| BitArray.OnByteArray.PopcntAll | src/main/java/org/seismotech/ground/mem/BitArray.java:36 | the number of set bits of the whole view |
| BitArray.OnByteArray.Next1 | src/main/java/org/seismotech/ground/mem/BitArray.java:141-179 | the first set position in [init, end), end when there is none or end ≤ init |
| BitArray.OnByteArray.Next1Scan | src/main/java/org/seismotech/ground/mem/BitArray.java:142-178 | the scan finds the first set bit of the range |
| BitArray.OnByteArray.Next1Head | src/main/java/org/seismotech/ground/mem/BitArray.java:147-154 | the partial first byte: its first set bit, or no set bit up to the byte's end |
| BitArray.OnByteArray.Next1Whole | src/main/java/org/seismotech/ground/mem/BitArray.java:155-169 | the whole-byte loops: the first set bit, or none up to the last whole byte |
| BitArray.OnByteArray.Next1Longs | src/main/java/org/seismotech/ground/mem/BitArray.java:155-159 | the 8-byte loop: the first set bit, or none up to where it stops |
| BitArray.OnByteArray.Next1Ints | src/main/java/org/seismotech/ground/mem/BitArray.java:160-164 | the 4-byte loop: the first set bit, or none up to where it stops |
| BitArray.OnByteArray.Next1Bytes | src/main/java/org/seismotech/ground/mem/BitArray.java:165-169 | the 1-byte loop: the first set bit, or none up to the last whole byte |
| BitArray.OnByteArray.Next1Tail | src/main/java/org/seismotech/ground/mem/BitArray.java:171-178 | the partial last byte: the first set bit below end, or end |
| BitArray.OnByteArray.Next1From | src/main/java/org/seismotech/ground/mem/BitArray.java:42 | next1 up to the view's size |
| BitArray.OnByteArray.Next1n | src/main/java/org/seismotech/ground/mem/BitArray.java:181-224 | init for n ≤ 0; otherwise the position of the n-th set bit from init, counting the first as 1, or end when fewer than n lie in [init, end) |
| BitArray.OnByteArray.Next1nScan | src/main/java/org/seismotech/ground/mem/BitArray.java:184-223 | the scan locates the n-th set bit of the range |
| BitArray.OnByteArray.Next1nHead | src/main/java/org/seismotech/ground/mem/BitArray.java:188-195 | the partial first byte: the n-th set bit in it, or the count still to find |
| BitArray.OnByteArray.Next1nWhole | src/main/java/org/seismotech/ground/mem/BitArray.java:196-213 | the whole-byte loops: the n-th set bit, or the count still to find |
| BitArray.OnByteArray.Next1nLongs | src/main/java/org/seismotech/ground/mem/BitArray.java:196-201 | the 8-byte loop: the n-th set bit, or the count still to find |
| BitArray.OnByteArray.Next1nInts | src/main/java/org/seismotech/ground/mem/BitArray.java:202-207 | the 4-byte loop: the n-th set bit, or the count still to find |
| BitArray.OnByteArray.Next1nBytes | src/main/java/org/seismotech/ground/mem/BitArray.java:208-213 | the 1-byte loop: the n-th set bit, or the count still to find |
| BitArray.OnByteArray.Next1nByte | src/main/java/org/seismotech/ground/mem/BitArray.java:209-212 | one byte of the 1-byte loop |
| BitArray.OnByteArray.Next1nTail | src/main/java/org/seismotech/ground/mem/BitArray.java:215-223 | the partial last byte: the n-th set bit below end, or end |
| BitArray.OnByteArray.Next1nFrom | src/main/java/org/seismotech/ground/mem/BitArray.java:49 | next1n up to the view's size |
| BitArray.OnByteArray.Clear | src/main/java/org/seismotech/ground/mem/BitArray.java:256-258 | clears exactly bits [off+init, off+end) of the store |
| BitArray.OnByteArray.ClearAll | src/main/java/org/seismotech/ground/mem/BitArray.java:63 | clears every bit of the view |
| BitArray.OnByteArray.Subarray | src/main/java/org/seismotech/ground/mem/BitArray.java:260-262 | the view the code builds: offset off+init and length off+end |
| BitArray.OnByteArray.SubarrayOfRange | src/main/java/org/seismotech/ground/mem/BitArray.java:260-262 | a valid view of bits [init, end): offset off+init, length end-init, bit j equal to bit init+j |
| BitArray.OnByteArray.SubarrayClamped | src/main/java/org/seismotech/ground/mem/BitArray.java:71-75 | the view the code builds: the raw bounds passed to subarray |
| BitArray.OnByteArray.SubarrayClampedOfRange | src/main/java/org/seismotech/ground/mem/BitArray.java:71-75 | a valid view of the bits between the clamped bounds: offset off + clamp(0, init, len), length clamp(effinit, end, len) - effinit, bit j equal to bit effinit + j; [init, end) itself for in-range bounds |
| BitArray.On | src/main/java/org/seismotech/ground/mem/BitArray.java:78-80 | a view of all 8·size bits of the store |
| BitArray.OnRange | src/main/java/org/seismotech/ground/mem/BitArray.java:82-84 | a view from bitinit with max(0, bitend-bitinit) bits |
| BitArray.Next1n32 | src/main/java/org/seismotech/ground/mem/BitArray.java:226-235 | p plus the index of the n-th lowest set bit of the 32-bit word |
| BitArray.Next1n64 | src/main/java/org/seismotech/ground/mem/BitArray.java:237-246 | p plus the index of the n-th lowest set bit of the 64-bit word |
| BitArray.Next1nWord | src/main/java/org/seismotech/ground/mem/BitArray.java:226-246 | the loop that strips the lowest set bit n-1 times ends at the n-th lowest set bit |
| BitArray.SubarrayPastEnd | src/main/java/org/seismotech/ground/mem/BitArray.java:260-262 | on a one-byte store, subarray(4, 8) has length 8 and subarrayClamped(0, 16) length 16, both reaching past the store |
| BitArray.ClearedCountsZero | src/main/java/org/seismotech/ground/mem/BitArray.java:63 | a cleared range has no set bits, so popcnt after clear() is 0 |
| BitArray.CountChunk | src/main/java/org/seismotech/ground/mem/BitArray.java:127-129 | the set bits of a word read are the set bits of its byte range |
| BitArray.NextChunk | src/main/java/org/seismotech/ground/mem/BitArray.java:155-169 | the first set bit of a word read is the first set bit of its byte range |
| BitArray.NthChunk | src/main/java/org/seismotech/ground/mem/BitArray.java:196-213 | the n-th set bit of a word read is the n-th set bit of its byte range |
| BitOps.NthOneIsNth | src/main/java/org/seismotech/ground/mem/BitArray.java:51-54 | the result of next1n is a set bit with n-1 set bits before it, or end exactly when fewer than n are set |
| BitOps.Next1IsFirst | src/main/java/org/seismotech/ground/mem/BitArray.java:44-46 | next1 is next1n with n = 1 |
| BitOps.NthSetFirst | src/main/java/org/seismotech/ground/mem/BitArray.java:226-235 | the first set bit of a word is its number of trailing zeros |
| PacketArray.OnByteArray.constructor | src/main/java/org/seismotech/ground/mem/PacketArray.java:91-96 | the view of width-bit entries from bitoff; mask is 2^width - 1 |
| PacketArray.OnByteArray.EntryWidth | src/main/java/org/seismotech/ground/mem/PacketArray.java:98 | the entry width |
| PacketArray.OnByteArray.Size | src/main/java/org/seismotech/ground/mem/PacketArray.java:100 | the number of entries |
| PacketArray.OnByteArray.Block8 | src/main/java/org/seismotech/ground/mem/PacketArray.java:114 | the byte that holds the first bit of entry i |
| PacketArray.OnByteArray.Shift8 | src/main/java/org/seismotech/ground/mem/PacketArray.java:115 | the position of that bit inside its byte |
| PacketArray.OnByteArray.GetWord | src/main/java/org/seismotech/ground/mem/PacketArray.java:148-150 | the (padded for the unchecked kinds) little-endian word at byte b |
| PacketArray.OnByteArray.PutWord | src/main/java/org/seismotech/ground/mem/PacketArray.java:153-156 | the (clamped for the unchecked kinds) write of a word at byte b |
| PacketArray.OnByteArray.Get | src/main/java/org/seismotech/ground/mem/PacketArray.java:148-235 | entry i of Entries(), below 2^width |
| PacketArray.OnByteArray.Masked | src/main/java/org/seismotech/ground/mem/PacketArray.java:153-156 | v & mask: the low width bits of v |
| PacketArray.OnByteArray.Set | src/main/java/org/seismotech/ground/mem/PacketArray.java:152-241 | entry i becomes v & mask, every other entry unchanged |
| PacketArray.OnByteArray.Orblend | src/main/java/org/seismotech/ground/mem/PacketArray.java:158-247 | entry i becomes its old value OR (v & mask), every other entry unchanged |
| PacketArray.OnByteArray.Clear | src/main/java/org/seismotech/ground/mem/PacketArray.java:102-104 | entries [init, end) become 0, every other entry unchanged |
| PacketArray.OnByteArray.ClearAll | src/main/java/org/seismotech/ground/mem/PacketArray.java:28 | every entry becomes 0 |
| PacketArray.OnByteArray.Subarray | src/main/java/org/seismotech/ground/mem/PacketArray.java:106-109 | an unchecked view from entry init with end-init entries, whose entries are Entries()[init..end] |
| PacketArray.OnByteArray.SubarrayClamped | src/main/java/org/seismotech/ground/mem/PacketArray.java:39-43 | the view the code builds: the raw bounds passed to subarray |
| PacketArray.OnByteArray.SubarrayClampedOfRange | src/main/java/org/seismotech/ground/mem/PacketArray.java:39-43 | a valid view of the entries between the clamped bounds |
| PacketArray.Unchecked | src/main/java/org/seismotech/ground/mem/PacketArray.java:53-82 | the 32-bit kind up to width 25, the 64-bit kind up to 57, IllegalArgument above 57 |
| PacketArray.UncheckedAll | src/main/java/org/seismotech/ground/mem/PacketArray.java:49-51 | entries from bit 0, as many as (8·size)/width |
| PacketArray.Fast | src/main/java/org/seismotech/ground/mem/PacketArray.java:64-76 | IllegalArgument for width outside [1, 57] or a store below the minimum size; otherwise a fast view whose every word lies inside the store |
| PacketArray.SubarrayClampedPastEnd | src/main/java/org/seismotech/ground/mem/PacketArray.java:39-43 | on a size-2 array, subarrayClamped(0, 4) has 4 entries and reaches past the store |
| PacketArray.EntriesWritten | src/main/java/org/seismotech/ground/mem/PacketArray.java:153-156 | writing one field changes exactly that entry |
| PacketArray.EntriesCleared | src/main/java/org/seismotech/ground/mem/PacketArray.java:102-104 | clearing the bit range of entries [init, end) zeroes exactly those entries |
| PacketArray.SubarrayEntries | src/main/java/org/seismotech/ground/mem/PacketArray.java:106-109 | the entries of the sub-view are the slice [init, end) of the entries |
| PacketArray.LowBitsMod | src/main/java/org/seismotech/ground/mem/PacketArray.java:123-132 | the mask keeps v modulo 2^width |
| Bits.UByte | src/main/java/com/seismotech/ground/util/Bits.java:13 | the unsigned reading of a byte, in [0, 2^8) |
| Bits.UShort | src/main/java/com/seismotech/ground/util/Bits.java:14 | the unsigned reading of a short, in [0, 2^16) |
| Bits.UInt | src/main/java/com/seismotech/ground/util/Bits.java:15 | the unsigned reading of an int, in [0, 2^32) |
| Bits.UnsignedRoundTrip | src/main/java/com/seismotech/ground/util/Bits.java:13-15 | the unsigned readings are inverted by the narrowing casts |
| Bits.ConcatHighLow | src/main/java/com/seismotech/ground/util/Bits.java:20-24 | concat(high(n), low(n)) == n |
| Bits.HighLowOfConcat | src/main/java/com/seismotech/ground/util/Bits.java:20-24 | high(concat(h, l)) == h and low(concat(h, l)) == l |
| Bits.Le16 | src/main/java/com/seismotech/ground/util/Bits.java:42-44 | little-endian value of 2 bytes |
| Bits.Le32 | src/main/java/com/seismotech/ground/util/Bits.java:54-56 | little-endian value of 4 bytes |
| Bits.Le64 | src/main/java/com/seismotech/ground/util/Bits.java:87-89 | little-endian value of 8 bytes |
| Bits.Le32Tail | src/main/java/com/seismotech/ground/util/Bits.java:62-71 | for width 0..3 the little-endian value of width bytes; IllegalArgument for any other width |
| Bits.Le64Tail | src/main/java/com/seismotech/ground/util/Bits.java:95-98 | for width 0..7 the little-endian value of width bytes; IllegalArgument otherwise |
| Bits.Le64TailSplit | src/main/java/com/seismotech/ground/util/Bits.java:97 | for width 4..7, the 32-bit word joined with the (width-4)-byte tail |
| Bits.StoreLE | src/main/java/com/seismotech/ground/util/Bits.java:46-48 | writes the n-byte little-endian encoding of v at off, nothing else |
| Bits.SetLe16 | src/main/java/com/seismotech/ground/util/Bits.java:46-48 | writes the 2-byte encoding of v at off |
| Bits.SetLe32 | src/main/java/com/seismotech/ground/util/Bits.java:58-60 | writes the 4-byte encoding of v at off |
| Bits.SetLe64 | src/main/java/com/seismotech/ground/util/Bits.java:91-93 | writes the 8-byte encoding of v at off |
| Bits.SetLe32Tail | src/main/java/com/seismotech/ground/util/Bits.java:73-81 | for width 0..3 writes the low width bytes of v, nothing else; otherwise IllegalArgument and no change |
| Bits.SetLe64Tail | src/main/java/com/seismotech/ground/util/Bits.java:100-106 | for width 0..7 writes the low width bytes of v; a negative width changes nothing, a width above 7 writes the first 4 bytes and then fails |
| Bits.Le32Chars | src/main/java/com/seismotech/ground/util/Bits.java:163-165 | two 16-bit units, low first |
| Bits.Le32TailChars | src/main/java/com/seismotech/ground/util/Bits.java:167-174 | 0 or 1 units; IllegalArgument otherwise |
| Bits.Le64Chars | src/main/java/com/seismotech/ground/util/Bits.java:176-178 | four 16-bit units, low first |
| Bits.Le64TailChars | src/main/java/com/seismotech/ground/util/Bits.java:180-189 | 0 to 3 units, low first; IllegalArgument otherwise |
| Bits.LEAppend | src/main/java/com/seismotech/ground/util/Bits.java:95-98 | the little-endian value of a + b is LE(a) + 256^|a|·LE(b), which is how le64tail joins the word and the tail |
| Bits.LERoundTrip | src/main/java/com/seismotech/ground/util/Bits.java:46-48 | decoding an n-byte encoding gives v modulo 256^n |
| Bits.LEBytesOfLE | src/main/java/com/seismotech/ground/util/Bits.java:42-44 | encoding a decoded byte sequence gives it back |
| Bits.Le16RoundTrip | src/main/java/com/seismotech/ground/util/Bits.java:42-48 | le16 read after le16 write at the same offset gives the value |
| Bits.Le32RoundTrip | src/main/java/com/seismotech/ground/util/Bits.java:54-60 | le32 read after le32 write at the same offset gives the value |
| Bits.Le64RoundTrip | src/main/java/com/seismotech/ground/util/Bits.java:87-93 | le64 read after le64 write at the same offset gives the value |
| Bits.Le32TailRoundTrip | src/main/java/com/seismotech/ground/util/Bits.java:62-81 | tail read after tail write gives v masked to 8·width bits |
| Bits.Le64TailRoundTrip | src/main/java/com/seismotech/ground/util/Bits.java:95-106 | tail read after tail write gives v masked to 8·width bits |
| ByteDrain.OnArray.constructor | src/main/java/org/seismotech/ground/mem/ByteDrain.java:22-25 | an empty sink over a fresh buffer of the initial size |
| ByteDrain.OnArray.Ensure | src/main/java/org/seismotech/ground/mem/ByteDrain.java:54-56 | when used + n does not overflow int, afterwards bs.length ≥ used + n; when it overflows, nothing grows; reallocates only when bs.length < used + n, keeping the drained bytes; IllegalState when the grown size would exceed MAX_SIZE |
| ByteDrain.OnArray.DrainByte | src/main/java/org/seismotech/ground/mem/ByteDrain.java:27-31 | used grows by 1 and the drained bytes gain x |
| ByteDrain.OnArray.DrainShort | src/main/java/org/seismotech/ground/mem/ByteDrain.java:33-38 | used grows by 2 and the drained bytes gain the little-endian encoding of x, which decodes back to x |
| ByteDrain.OnArray.DrainInt | src/main/java/org/seismotech/ground/mem/ByteDrain.java:40-45 | used grows by 4 and the drained bytes gain the encoding of x, which decodes back to x |
| ByteDrain.OnArray.DrainLong | src/main/java/org/seismotech/ground/mem/ByteDrain.java:47-52 | used grows by 8 and the drained bytes gain the encoding of x, which decodes back to x |
| ByteDrain.Stored | src/main/java/org/seismotech/ground/mem/ByteDrain.java:36-37 | writing at used extends the drained prefix by the written bytes |
| ByteDrain.ReadBack | src/main/java/org/seismotech/ground/mem/ByteDrain.java:34-52 | the appended encoding decodes back to the value |
| ByteFlux.OnByteArray.constructor | src/main/java/org/seismotech/ground/mem/ByteFlux.java:21-24 | the reader starts at 0, with the whole view left |
| ByteFlux.OnByteArray.Remaining | src/main/java/org/seismotech/ground/mem/ByteFlux.java:26 | data.size() - next, never negative |
| ByteFlux.OnByteArray.NextByte | src/main/java/org/seismotech/ground/mem/ByteFlux.java:28 | returns the next byte and advances by 1 |
| ByteFlux.OnByteArray.NextShort | src/main/java/org/seismotech/ground/mem/ByteFlux.java:30-34 | returns the little-endian value of the next 2 bytes and advances by 2 |
| ByteFlux.OnByteArray.NextInt | src/main/java/org/seismotech/ground/mem/ByteFlux.java:36-40 | returns the little-endian value of the next 4 bytes and advances by 4 |
| ByteFlux.OnByteArray.NextLong | src/main/java/org/seismotech/ground/mem/ByteFlux.java:42-46 | returns the little-endian value of the next 8 bytes and advances by 8 |
| ByteFlux.Consumed | src/main/java/org/seismotech/ground/mem/ByteFlux.java:30-46 | the unread bytes are the bytes just read followed by the new unread bytes |
| URecDiv.SearchExponent | src/main/java/org/seismotech/ground/math/URecDiv.java:36-38 | the loop stops at the first exponent where the test fails, between 1 and 63 |
| URecDiv.Exponent | src/main/java/org/seismotech/ground/math/URecDiv.java:38 | the first exponent from b at which the loop test fails, never past the cap |
| URecDiv.Num33 | src/main/java/org/seismotech/ground/math/URecDiv.java:39-40 | num33·n = 2^b + e(b): the ceiling of 2^b / n |
| URecDiv.URecDiv.constructor | src/main/java/org/seismotech/ground/math/URecDiv.java:28-45 | the fields hold the magic triple of n |
| URecDiv.URecDiv.Numerator | src/main/java/org/seismotech/ground/math/URecDiv.java:57 | the magic numerator widened from int to long: in the int range, congruent to the magic's num modulo 2^32, and negative exactly when its top bit is set |
| URecDiv.URecDiv.Log2Denominator | src/main/java/org/seismotech/ground/math/URecDiv.java:58 | the shift, -1 exactly for the divisor 0, at most 63 |
| URecDiv.URecDiv.Div | src/main/java/org/seismotech/ground/math/URecDiv.java:60-68 | the unsigned quotient x / n for every divisor 0 < n ≤ 2^31 |
| URecDiv.MagicQuotient | src/main/java/org/seismotech/ground/math/URecDiv.java:38-40 | when nc·e(b) < 2^b, the multiplier for 2^b gives the exact quotient of every 32-bit dividend |
| URecDiv.MagicShape | src/main/java/org/seismotech/ground/math/URecDiv.java:39-43 | bit33 holds iff num33 needs more than 32 bits; then num is its low 32 bits and log2den = b - 32 |
| URecDiv.Bit33Split | src/main/java/org/seismotech/ground/math/URecDiv.java:66 | ((x·num >>> 32) + x) >>> (b-32) equals x·num33 >>> b |
| URecDiv.PowerOfTwoMagic | src/main/java/org/seismotech/ground/math/URecDiv.java:30-33 | for a power of two, num = 1, no bit 33, and n = 2^log2den |
| URecDiv.DivByZero | src/main/java/org/seismotech/ground/math/URecDiv.java:30-33 | with divisor 0 the division gives 0 |
| URecDiv.DivCorrect | src/main/java/org/seismotech/ground/math/URecDiv.java:5-68 | with the search allowed to reach 64, div is unsigned division for every divisor n ≠ 0 |
| URecDiv.DivAsWritten | src/main/java/org/seismotech/ground/math/URecDiv.java:28-68 | with the loop bound 63, div is unsigned division for every divisor up to 2^31 |
| URecDiv.AsWrittenMisdivides | src/main/java/org/seismotech/ground/math/URecDiv.java:38 | for n = 0xFFFFFFFE the code's div(0xFFFFFFFD) is 1, the quotient 0, and the corrected search gives 0 |
| DMath.Cdiv | src/main/java/org/seismotech/ground/math/DMath.java:11-13 | for n ≥ 0, d > 0 without overflow, the ceiling of n/d |
| DMath.Ceil | src/main/java/org/seismotech/ground/math/DMath.java:15-17 | for n ≥ 0, d > 0 without overflow, the smallest multiple of d that is ≥ n |
| DMath.CeilDivision | src/main/java/org/seismotech/ground/math/DMath.java:11-17 | (n+d-1)/d is the least c with n ≤ d·c, for n ≥ 0 and d > 0 |
| DMath.IsPow2Int | src/main/java/org/seismotech/ground/math/DMath.java:22-24 | true iff n is 0 or a power of two |
| DMath.IsPow2Long | src/main/java/org/seismotech/ground/math/DMath.java:26-28 | true iff n is 0 or a power of two |
| DMath.AndPredecessor | src/main/java/org/seismotech/ground/math/DMath.java:22-28 | for u ≥ 1, u & (u-1) == 0 iff u is a power of two |
| DMath.BitSizeInt | src/main/java/org/seismotech/ground/math/DMath.java:33-35 | the number of binary digits of n: 2^(r-1) ≤ n < 2^r |
| DMath.BitSizeLong | src/main/java/org/seismotech/ground/math/DMath.java:40-42 | the number of binary digits of n: 2^(r-1) ≤ n < 2^r |
| DMath.Flog2Int | src/main/java/org/seismotech/ground/math/DMath.java:47-49 | -1 for 0, otherwise floor(log2 n) |
| DMath.Flog2Long | src/main/java/org/seismotech/ground/math/DMath.java:54-56 | -1 for 0, otherwise floor(log2 n) |
| DMath.Clog2Int | src/main/java/org/seismotech/ground/math/DMath.java:61-63 | 0 for 0, otherwise ceil(log2 n) for n up to 2^31 |
| DMath.Clog2Long | src/main/java/org/seismotech/ground/math/DMath.java:68-70 | 0 for 0, otherwise ceil(log2 n) for n up to 2^63 |
| DMath.Clog2Sound32 | src/main/java/org/seismotech/ground/math/DMath.java:61-63 | the code's expression (32 - nlz(n-1)) & 31 gives 0 for 0 and ceil(log2 n) otherwise |
| DMath.Clog2Sound64 | src/main/java/org/seismotech/ground/math/DMath.java:68-70 | the code's expression (64 - nlz(n-1)) & 63 gives 0 for 0 and ceil(log2 n) otherwise |
| DMath.BitLen | src/main/java/org/seismotech/ground/math/DMath.java:33-42 | the bit length: u < 2^k and 2^(k-1) ≤ u for u > 0 |
| XArray.GrowSize | src/main/java/org/seismotech/ground/util/XArray.java:19-22 | IllegalState iff MAX_SIZE - used < free; otherwise between used+free and MAX_SIZE, and at least min(2·size, MAX_SIZE) |
| XArray.GrowSizeExamples | src/main/java/org/seismotech/ground/util/XArray.java:19-22 | growSize(16, 15, 2) == 32, and the limit cases at MAX_SIZE |
| XArray.Length | src/main/java/org/seismotech/ground/util/XArray.java:54-56 | 0 for null, the array length otherwise |
| XArray.GrowFree | src/main/java/org/seismotech/ground/util/XArray.java:46-51 | fails iff growSize fails; otherwise a fresh array of the grown size starting with xs[0..used) |
| XArray.GrowFreeOf | src/main/java/org/seismotech/ground/util/XArray.java:33-35 | growFree with the array's own length |
| XArray.IsPrefixAt | src/main/java/org/seismotech/ground/util/XArray.java:68-74 | true iff prefix[poff..poff+len] == data[doff..doff+len] |
| XArray.IsPrefixOfSlice | src/main/java/org/seismotech/ground/util/XArray.java:63-66 | true iff plen ≤ dlen and the first plen bytes agree |
| XArray.IsPrefix | src/main/java/org/seismotech/ground/util/XArray.java:59-61 | true iff prefix is at most as long as data and equals its start |
| Extensions.LastIndexOf | src/main/java/com/seismotech/ground/io/Extensions.java:41 | the last position ≤ from holding c, or -1 when there is none |
| Extensions.ExtensionsIterator.constructor | src/main/java/com/seismotech/ground/io/Extensions.java:22-25 | the remaining extensions are all extensions of the name |
| Extensions.ExtensionsIterator.FindNext | src/main/java/com/seismotech/ground/io/Extensions.java:40-45 | true iff a '.' lies before end; then dot moves to the last one |
| Extensions.ExtensionsIterator.EnsureNext | src/main/java/com/seismotech/ground/io/Extensions.java:38 | true iff extensions remain |
| Extensions.ExtensionsIterator.HasNext | src/main/java/com/seismotech/ground/io/Extensions.java:27-29 | true iff extensions remain; repeated calls do not change what remains |
| Extensions.ExtensionsIterator.Next | src/main/java/com/seismotech/ground/io/Extensions.java:31-36 | the next extension right to left, which is then dropped; NoSuchElement when none remain |
| Extensions.Of | src/main/java/com/seismotech/ground/io/Extensions.java:13-15 | an iterator over all extensions of the name |
| Extensions.ExtsAtDot | src/main/java/com/seismotech/ground/io/Extensions.java:31-45 | the extensions of name[..end] are name[dot+1..end] followed by the extensions of name[..dot] |
| Extensions.RemainingNonEmpty | src/main/java/com/seismotech/ground/io/Extensions.java:38-45 | extensions remain before end exactly when a '.' lies before end |
| Extensions.ExtsHaveNoDot | src/main/java/com/seismotech/ground/io/Extensions.java:31-45 | no extension contains '.' |
| Extensions.ExtsCount | src/main/java/com/seismotech/ground/io/Extensions.java:38-45 | there are as many extensions as '.' characters |
| Extensions.ExtsRebuild | src/main/java/com/seismotech/ground/io/Extensions.java:31-45 | the name is the dot-free stem followed by the extensions, each after a '.', in reverse order |
| Extensions.ExtsExample | src/main/java/com/seismotech/ground/io/Extensions.java:31-45 | "a.tar.gz" gives "gz" then "tar"; "a..b." gives "", "b", ""; "README" gives nothing |
| Index.Flip | src/main/java/org/seismotech/ground/util/Index.java:39 | -(a+1) in 32-bit arithmetic: non-negative and negative values swap |
| Index.Found | src/main/java/org/seismotech/ground/util/Index.java:32 | a found position, whose effective index is i |
| Index.InsertAt | src/main/java/org/seismotech/ground/util/Index.java:33 | a not-found position, whose effective index is i |
| Index.ContinueAt | src/main/java/org/seismotech/ground/util/Index.java:34 | a not-found position, whose effective index is i |
| Index.Effective | src/main/java/org/seismotech/ground/util/Index.java:37 | the location of a position, never negative |
| Index.DoneFound | src/main/java/org/seismotech/ground/util/Index.java:26-28 | found or not as the flag says, at index i |
| Index.DoneCmp | src/main/java/org/seismotech/ground/util/Index.java:29-31 | found(i) for cmp == 0, insertAt(i) for cmp < 0, insertAt(i+1) for cmp > 0 |
| Index.FlipInvolution | src/main/java/org/seismotech/ground/util/Index.java:39 | flip(flip(a)) == a |
| Bounds.Clamp | src/main/java/org/seismotech/ground/util/Bounds.java:7-9 | inside [min, max] when min ≤ max; i itself when in range; min below, max above; max when max < min |
| Bounds.ClampIdempotent | src/main/java/org/seismotech/ground/util/Bounds.java:7-9 | clamping twice equals clamping once |
| CursorIterator.CursorIterator.constructor | src/main/java/org/seismotech/ground/cursor/CursorIterator.java:14-17 | not ready, with the cursor's remaining values left |
| CursorIterator.CursorIterator.HasNext | src/main/java/org/seismotech/ground/cursor/CursorIterator.java:19-21 | true iff values remain; advances the cursor only when not already ready |
| CursorIterator.CursorIterator.Next | src/main/java/org/seismotech/ground/cursor/CursorIterator.java:23-26 | the next value of the cursor, and not ready afterwards; NoSuchElement when none remain |

## Left out

- Parent pointers, in-place node updates and node identity in `BTreeList`. The tree is a
  value, so insertion and removal rebuild the path from the root. `childIndex`,
  `fixParent`, `fixNewChildren` and `nullify` have no counterpart: their effects on the
  parent links and on the null tail of `data` are implied by the datatype. The null
  entries in slots [used, order) are the absent part of the sequence.
- `FinderByIndex.walk2Leaf(sizeDelta)`, which adds the delta to each size on the way down during insertion and removal, has no method of its own. The rebuilds `InsertBelow` and `RemoveAt` give every node on the path its new size, and `Ok` requires each size to equal its subtree's item count.
- BTreeList order: the model requires `order ≥ 3`. With order 2, `minOrder()` is 1 and an
  internal split leaves a non-root node with a single child. A later `remove` with `j == 0`
  then reads `parent.data[1]`, which is null. The sequence add a, b, c, d, e followed by
  remove(4) reaches it.
- Sizes are unbounded integers. `long` node sizes do not overflow, and the `int` casts in
  `get`/`set`/`remove` are not modelled.
- `BTreeList.BTreeList.ForEach`: the `Consumer` is modelled as the returned sequence of
  the elements it would receive.
- `BTreeList.BTreeList.ToArray`: the reflective `Array.newInstance` becomes a fresh array.
  `ArrayUtil.MAX_SIZE` is not part of this model, so it is the parameter `maxSize`.
- `BTreeIterator.remove` only throws, and so does its model.
- `BTreeList.BTreeIterator.HasNext` is the corrected form (see Findings). The model does not
  reproduce the crash or misbehaviour of the code when `hasNext()` is called again after
  the end.
- `BTreeList.BTreeIterator.AdvanceLeaf`: at the end of a height-0 tree the model stays at
  the root leaf and returns false. The code sets `node` to the root's `parent`, which is
  null, so any later call throws `NullPointerException`.
- `BTreeList.BTreeIterator.EnsureNext` is the corrected test
  `level == 0 && cursor0 < used`. The code tests only `cursor0 < node.used`, which holds
  again once the walk rests at a root of height ≥ 1 after the end (`HasNextAfterEnd`).
- `BTreeList.BTreeIterator.Next`: every call after the end throws `NoSuchElement`. For
  height ≥ 1, the code instead returns `root.data[0]`, a node, cast to the element type and
  advances. For height 0 it throws `NullPointerException`.
- `ByteArray.UncheckedOnByteBuffer` and the `ByteBuffer` overloads in `Bits`, which wrap
  `java.nio.ByteBuffer`.
- `BitArray.get(i, w)` and `set(i, w, v)` only throw.
- `Word`, which adapts fixed-width reads and writes of `ByteArray` and draws random words; it is not part of this model. The I/O classes and `Extensions.of(Path)`, which reads the file system, are left out too.
- Out-of-view access in the byte, bit and packed views is excluded by preconditions: the
  "unchecked" behaviour on indices outside the view, where Java reads or writes neighbouring
  bytes or throws `ArrayIndexOutOfBoundsException`, is not modelled.
- `ByteArray.UncheckedOnBytes.GetBulk` and `ByteArray.UncheckedOnBytes.SetBulk`: require the
  target or source array to hold the copied bytes from `toff` or `soff`. When it is too
  short, `System.arraycopy` throws `ArrayIndexOutOfBoundsException`, and that case is not
  modelled.
- `CursorIterator.SeqCursor` stands in for the `Cursor` interface. Its model is a fixed
  sequence of values read front to back, so cursors whose values change while iterating,
  and other `Cursor` implementations, are not modelled.
- `ByteArray.UncheckedOnBytes.GetPaddedShort`: requires `i < len`. At `i == len` the code
  reads the byte just past the view, and that read is not modelled.
- `ByteArray.UncheckedOnBytes.SetClampedShort`: requires `i < len`. At `i == len` the code
  writes the byte just past the view, and that write is not modelled.
- `ByteArray.UncheckedOnBytes.Clear`: requires `init ≤ end`. `Arrays.fill` throws when
  init > end.
- `ByteArray.UncheckedOnBytes.ClearBits`: requires `init ≤ end`. With init > end the code
  still masks byte `end`, and that case is not modelled.
- `BitArray.OnByteArray.Clear`: requires `init ≤ end`, because it goes through the byte
  view's bit-range clear. With init > end the code still masks the byte of bit `end` when
  that bit is not byte-aligned, and that case is not modelled.
- `PacketArray.OnByteArray.Clear`: requires `init ≤ end`, for the same reason. With
  init > end the code still masks the byte of entry `end`'s first bit when that bit is not
  byte-aligned, and that case is not modelled.
- `PacketArray.Unchecked`: requires `1 ≤ width`. The interface documents widths from 1 on.
  Width 0 gives a degenerate view: its mask is 0, so every entry reads 0 and the setters and
  blends write nothing. A negative width reaches a constructor with a nonsensical mask.
  Neither case is modelled.
- `PacketArray.UncheckedAll`: requires `1 ≤ width`. It computes the entry count by dividing
  by the width, so width 0 divides by zero; a negative width is excluded as above.
- PacketArray widths: the interface documentation allows widths 1 to 64, but the code caps
  them at 57 (`MAX_WIDTH_64`). The model follows the code.
- `DMath.Cdiv`: requires `d ≠ 0`, because Java throws `ArithmeticException`. Its result is
  stated only for n ≥ 0, d > 0 and no `int` overflow of `n + d - 1`.
- `DMath.Ceil`: requires `d ≠ 0`, for the same reason. Its result is stated only for
  n ≥ 0, d > 0 and no `int` overflow of `n + d - 1`.
- `DMath.Clog2Int`: the result is stated for n ≤ 2^31 only. Above that the code returns 0.
- `DMath.Clog2Long`: the result is stated for n ≤ 2^63 only. Above that the code returns 0.
- `ByteFlux.OnByteArray.NextByte`: requires enough bytes to remain. Reading past the end
  of the flux is not modelled.
- `ByteFlux.OnByteArray.NextShort`: requires enough bytes to remain, as for `NextByte`.
- `ByteFlux.OnByteArray.NextInt`: requires enough bytes to remain, as for `NextByte`.
- `ByteFlux.OnByteArray.NextLong`: requires enough bytes to remain, as for `NextByte`.
- `URecDiv.URecDiv.Div`: correctness is stated only for divisors up to 2^31. With the loop
  bound of 63, larger divisors can give a wrong quotient (see Findings). The corrected
  search is proved correct for every divisor in `URecDiv.DivCorrect`.
- Java `int` overflow in index arithmetic, such as `off + i` and `bitoff + i*width`, is not
  modelled: indices are unbounded integers. The exception is ByteDrain's `ensure`, whose
  `used + n` is taken modulo 2^32 as Java does, so an overflowing sum grows nothing.
- The JVM intrinsics (`bitCount`, `numberOfTrailingZeros`, `numberOfLeadingZeros`,
  `lowestOneBit`) and the VarHandle views are modelled by specification functions, not by
  their implementation.
- The `next1n` documentation says that n counts from 0. The code counts the first set bit
  as n = 1 and returns init for n ≤ 0. The model follows the code.

## Findings

| source | as written | input that shows it | evidently intended | confidence | as-written member | corrected member |
|---|---|---|---|---|---|---|
| src/main/java/org/seismotech/ground/math/URecDiv.java:38 | the search for the magic exponent stops at b = 63 | n = 0xFFFFFFFE (int -2), x = 0xFFFFFFFD: the loop test still holds at 63, and div returns 1 | the search reaches b = 64 when needed, and div(x) == divideUnsigned(x, n) for every n ≠ 0 | not executed | URecDiv.AsWrittenMisdivides | URecDiv.DivCorrect |
| src/main/java/org/seismotech/ground/mem/BitArray.java:260-262 | `subarray` passes `off+end` as the length of the new view | `on(store)` over a one-byte store: `subarray(4, 8)` has 8 bits, reaching past the store | length `end - init` | not executed | BitArray.SubarrayPastEnd | BitArray.OnByteArray.SubarrayOfRange |
| src/main/java/org/seismotech/ground/mem/BitArray.java:71-75 | `subarrayClamped` computes clamped bounds and then passes the raw ones | `subarrayClamped(0, 16)` on an 8-bit view has 16 bits | the view of the clamped range | not executed | BitArray.OnByteArray.SubarrayClamped | BitArray.OnByteArray.SubarrayClampedOfRange |
| src/main/java/org/seismotech/ground/mem/PacketArray.java:39-43 | `subarrayClamped` computes clamped bounds and then passes the raw ones | a 2-entry array of 4-bit entries over one byte: `subarrayClamped(0, 4)` has 4 entries | the view of the clamped range | not executed | PacketArray.SubarrayClampedPastEnd | PacketArray.OnByteArray.SubarrayClampedOfRange |
| src/main/java/com/seismotech/ground/util/BTreeList.java:569-571 | `ensureNext` tests `cursor0 < node.used` without checking that the iterator stands at a leaf | a tree of height 1 after the last element: `hasNext()` is false once, then true, and `next()` returns a node | `level == 0 && cursor0 < node.used` | not executed | BTreeList.HasNextAfterEnd | BTreeList.BTreeIterator.HasNext, BTreeList.BTreeIterator.EnsureNext, BTreeList.BTreeIterator.Next |

