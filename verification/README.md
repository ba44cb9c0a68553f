# Binary search tree descent and heap removal, modelled in Dafny

This project models two independent cores of a small Go collection library
(arthurh0812/datastruct), with all locking removed and the generic
`types.Value` replaced by `int`:

- **bst/tree.go** (module `Bst`, file `bst.dfy`): an unbalanced binary search
  tree with a node counter and a duplicate policy. Every descent (lookup
  `find`, predecessor lookup `findPrev`, insertion `insert`) iterates
  `chooseNext`, which goes left when the node is greater than the query or
  equal to it with duplicates allowed, goes right when the node is smaller,
  and stops when it is equal with duplicates forbidden. The tree is an
  immutable inductive `Tree = Leaf | Node(left, val, right)`; `Leaf` is the
  nil `*Node`. The `Tree` struct is the record `Bst(root, size, duplicates)`.
- **binaryheap/remove.go** (module `BinaryHeap`, file `heap.dfy`): removal
  from an array-backed heap that keeps a value-to-index table. `remove(idx)`
  swaps position `idx` with the last one unless it already is the last,
  cuts the array by one, decrements the counter and calls `bubble(idx)`.
  `Remove(val)` finds the index through the table; `RemoveAt(idx)` returns
  the removed element or nil. The heap is `Heap(arr: seq<int>, table:
  map<int, int>, size: int)`.

Only `bubble`, which lives outside remove.go, is given by contract: it is a
function parameter restricted by `IsBubble` (it permutes the live elements;
on a heap whose table tracks every live element it keeps the table in step
with every element it moves and adds or drops no key; it leaves stale table
keys alone; and it does nothing when its index is at or past the end). The
other helpers remove.go calls are ordinary definitions whose contracts
state what the proofs use: `swap` exchanges two positions and rewrites both
table entries, leaving every other entry as it was; `getIndex` returns a
stored value's table entry and -1 for a missing key; `isEmpty` is a zero
counter, which with a right counter means no live element; `isOutOfBounds(idx)`
is `idx < 0 || idx >= size`, so with a right counter an index is in bounds
exactly when it is a position of the array; `getValue(idx)` is `arr[idx]`;
`removeFromTable(val, idx)` deletes the key `val` and leaves every other
entry as it was.

The invariants the proofs work under are `Bst.Ordered` (left subtree values
at most the node's value, strictly below it under the strict invariant of
the forbidding policy; right subtree values above it; since the policy can
be toggled without touching any node, the lookup and insertion lemmas are
also stated under the loose invariant, which holds whatever the toggles), `Bst.Valid` (the counter equals the number
of nodes) and `BinaryHeap.Consistent` (`len(arr) == size`, every live
element is in the table at its position, and the table has no other key).

## Model

| member | source | states |
|---|---|---|
| Bst.Count | bst/tree.go:8-15 | the node count that `size` is meant to hold is the number of stored values, multiplicity included |
| Bst.ChooseNext | bst/tree.go:125-132 | left exactly when the node is greater than the query or equal with duplicates allowed; right exactly when it is smaller; stop exactly when equal with duplicates forbidden |
| Bst.Next | bst/tree.go:125-132 | the node `chooseNext` returns is strictly smaller than the node it starts from, so every descent terminates |
| Bst.ChooseNextKeepsTarget | bst/tree.go:125-132 | on an ordered tree, when the current node does not hold a stored value `q`, the child `chooseNext` picks still contains `q` |
| Bst.Find | bst/tree.go:82-91 | nothing is found in an empty tree; a found node holds a value equal to the query and lies inside the searched tree |
| Bst.FindLoop | bst/tree.go:82-91 | the loop of `find` returns the same node as the recursive descent |
| Bst.Contains | bst/tree.go:93-97 | `Contains(v)` is true only if `v` is stored in the tree, on every tree |
| Bst.FindComplete | bst/tree.go:82-91 | on an ordered tree the descent finds a node exactly when the query is stored |
| Bst.ContainsIsMembership | bst/tree.go:82-97 | on any tree ordered under the loose invariant (so also after a policy toggle), `Contains(v)` holds if and only if some node stores `v` |
| Bst.FindIgnoresPolicy | bst/tree.go:82-91 | because equality is tested before `chooseNext`, the duplicate policy never changes what `find` returns |
| Bst.FindPrevFrom | bst/tree.go:100-110 | from a node reached from `prev`, the loop finds what `find` finds; no match gives no predecessor; a match at the start gives `prev`; a deeper match gives a predecessor inside the tree whose `chooseNext` child is the match |
| Bst.FindPrev | bst/tree.go:100-110 | (nil, nil) when nothing matches; otherwise the found node equals the query and is what `find` returns, the predecessor is nil exactly when the found node is the root, and otherwise the found node is the child of the predecessor chosen by `chooseNext` |
| Bst.InsertTree | bst/tree.go:112-123 | on a non-empty tree the descent-and-attach adds exactly one value: the stored values become the old ones plus the new value |
| Bst.IsEmpty | bst/tree.go:39-45 | when the counter is right, the tree reads as empty exactly when it stores nothing |
| Bst.Insert | bst/tree.go:134-146 | an empty tree gets the new node as its only node and size 1; a non-empty one grows by exactly one and keeps every stored value; the policy is unchanged and a right counter stays right |
| Bst.InsertTreeKeepsOrder | bst/tree.go:112-132 | inserting under either policy into a tree ordered under the strict or the loose invariant keeps that invariant, for a value not already stored, or for any value when both the policy and the invariant admit duplicates |
| Bst.InsertKeepsOrder | bst/tree.go:134-141 | `Insert` of such a value keeps the strict or loose ordering invariant the tree had, including the empty-tree branch |
| Bst.FindAfterInsertTree | bst/tree.go:82-123 | after the descent-and-attach the inserted value is found again, whatever the shape of the non-empty tree |
| Bst.InsertThenContains | bst/tree.go:93-141 | `Contains(v)` is true right after `Insert(v)` |
| Bst.AttachPathEndsAtNil | bst/tree.go:112-123 | away from the equal-value stop, the `chooseNext` path from the root ends in a nil slot |
| Bst.InsertGraftsAtPathEnd | bst/tree.go:112-123 | away from the equal-value stop, inserting changes only that nil slot, which receives a new leaf holding the value |
| Bst.AttachPathLastStep | bst/tree.go:112-123 | in a non-empty tree the new leaf hangs under the last node visited, on the side `chooseNext` picks at that node |
| Bst.Clear | bst/tree.go:148-157 | after `Clear` the tree is empty, stores nothing, has a right counter of 0, keeps its policy and contains no value |
| Bst.AllowDuplicate | bst/tree.go:53-57 | duplicates become allowed, no node or counter changes, and an ordered tree stays ordered under the new policy |
| Bst.ForbidDuplicate | bst/tree.go:59-63 | duplicates become forbidden and no node or counter changes |
| Bst.PolicyKeepsContains | bst/tree.go:53-63 | toggling the policy changes no answer of `Contains`; it only affects later inserts |
| Bst.AllowKeepsOrder | bst/tree.go:53-57 | a tree ordered with duplicates forbidden is ordered with duplicates allowed |
| Bst.ForbidDuplicateKeepsDuplicates | bst/tree.go:59-63 | forbidding duplicates is not retroactive: after two inserts of 5 with duplicates allowed and then `forbidDuplicate`, the tree holds 5 twice, is ordered only under the loose invariant, and `Contains(5)` is true |
| BinaryHeap.ConsistentLookup | binaryheap/remove.go:24-25 | in a consistent heap a value's table entry is a valid position holding that value |
| BinaryHeap.SwapStepIsBubble | binaryheap/remove.go:17 | the contract required of `bubble` admits a sift step built from `swap`: exchanging `idx` with its successor satisfies it |
| BinaryHeap.Swap | binaryheap/remove.go:12-14 | the two positions are exchanged and nothing else moves; the elements are a permutation of the old ones; the table keeps tracking every live element and no other entry changes |
| BinaryHeap.RemoveLast | binaryheap/remove.go:5-9 | the array becomes its own prefix of length `size - 1`; table and counter are untouched |
| BinaryHeap.TakeOut | binaryheap/remove.go:11-16 | before `bubble`: one element shorter, counter one less, the elements are the old ones minus the one at `idx`; if `idx` was not last the former last element now sits at `idx` and nothing else moved; if it was last the rest is the untouched prefix and the table is unchanged; the removed element's table entry points at the vacated slot |
| BinaryHeap.CutDropsRemoved | binaryheap/remove.go:12-15 | the cut drops exactly the element that was at `idx`, and no copy of it stays live |
| BinaryHeap.RemoveAtIndex | binaryheap/remove.go:11-18 | `remove(idx)` shortens the array and the counter by exactly one, so `len(arr) == size` is kept; the elements are the old ones minus the one at `idx`; table tracking is kept |
| BinaryHeap.RemoveLastPositionSkipsBubble | binaryheap/remove.go:12-17 | when `idx` is the last position `bubble` gets the new size as its index and changes nothing |
| BinaryHeap.GetIndex | binaryheap/remove.go:24-27 | the table lookup: a stored value's own table entry, and -1 exactly for a value without an entry (when no entry is negative) |
| BinaryHeap.IsEmpty | binaryheap/remove.go:21 | with a right counter the heap reads as empty exactly when no element is live, and in a consistent heap exactly when the table is empty |
| BinaryHeap.IsOutOfBounds | binaryheap/remove.go:33 | with a right counter an index is in bounds exactly when it is a position of the array |
| BinaryHeap.RemoveFromTable | binaryheap/remove.go:29 | the value's key is gone, every other key stays with the index it had, the array and counter are untouched |
| BinaryHeap.RemoveValue | binaryheap/remove.go:20-30 | a no-op on an empty heap or for a value without a table entry; otherwise one element fewer, counter one less, and the value no longer in the table |
| BinaryHeap.RemoveValueKeepsConsistent | binaryheap/remove.go:20-30 | on a consistent heap `Remove(val)` takes out exactly `val` and leaves the heap consistent |
| BinaryHeap.RemoveAt | binaryheap/remove.go:32-39 | nil, with the heap unchanged, exactly when the heap is empty or `idx` is outside [0, size); otherwise the element that was at `idx`, with one element fewer and that element taken out |
| BinaryHeap.RemoveAtLeavesStaleEntry | binaryheap/remove.go:32-39 | on a consistent heap `RemoveAt` leaves the removed element's table entry pointing one past the end, so the heap is no longer consistent |
| BinaryHeap.RemoveAtThenRemoveDropsLiveValue | binaryheap/remove.go:20-39 | on the heap [1, 2], `RemoveAt(0)` returns 1 and then `Remove(1)` empties the array, dropping the live 2 |
| BinaryHeap.RemoveAtIntended | binaryheap/remove.go:32-39 | as `RemoveAt`, and in addition the returned value has no table entry left |
| BinaryHeap.RemoveAtIntendedKeepsConsistent | binaryheap/remove.go:32-39 | the corrected `RemoveAt` is `Remove` of the value at `idx` and keeps the heap consistent |

## Findings

| source | as written | input that shows it | evidently intended | confidence | as-written member | corrected member |
|---|---|---|---|---|---|---|
| binaryheap/remove.go:32-39 | `RemoveAt` never calls `removeFromTable`, so the removed value keeps a table entry that now points one past the end of the array | heap [1, 2] with table {1: 0, 2: 1}: `RemoveAt(0)` returns 1, then `Remove(1)` finds index 1, skips the swap and cuts off the live 2 | `RemoveAt` deletes the removed value's entry, as `Remove` does at line 29 | medium, not executed; assumes `getIndex` is the plain table lookup its comment says | BinaryHeap.RemoveAtThenRemoveDropsLiveValue | BinaryHeap.RemoveAtIntendedKeepsConsistent |

## Left out

- Locking: every `sync.Mutex` section (`setSize`, `increaseSize`, `decreaseSize`, `setRoot`, the policy toggles, `clear`, `removeLast`) is a plain field update; concurrency is not modelled.
- `types.Value` and the node comparison methods `isEqualTo`, `isGreaterThan`, `isLessThan` are replaced by `int` and its `==`, `>`, `<`.
- Bst.InsertTree: `Node.insert` is not part of this model. Where `chooseNext` picked a side, the new node goes into that side's nil slot. Where it stopped at an equal value with duplicates forbidden, the source's placement cannot be seen; the model makes the new node that node's left child and hangs the former left subtree below it. This keeps every value and the size change, but it is a modelling choice.
- Bst.InsertKeepsOrder: requires the inserted value to be absent unless both the policy and the invariant admit duplicates, because the placement of an equal value with duplicates forbidden is not visible.
- Bst.InsertTree: its `Leaf` case stands for the nil slot the descent reaches, where the new leaf is attached. On an empty tree Go's `insert` does nothing at all (its loop never runs, so neither `prev.insert` nor `increaseSize` happens); `Insert` never calls it on an empty tree, so only the internal helper differs.
- Bst.IsEmpty: the nil-receiver test `t == nil` has no counterpart, as a model value always exists.
- `Size()` is the `size` field, read directly.
- `traverse` (bst/tree.go:69-79) is an unused helper; tree node removal does not appear in bst/tree.go.
- `size` is an unbounded integer; `int64` overflow is not modelled.
- The internals of `bubble`, sift-up and sift-down are not in remove.go; `bubble` is a parameter with a contract, and heap order itself is not modelled.
- BinaryHeap.RemoveLast: requires `size - 1 <= len(arr)`; Go also allows reslicing up to the capacity, which is not modelled.
- BinaryHeap.RemoveFromTable: the index argument of `removeFromTable` is ignored; only the key is deleted.
- Heap insertion and peeking are not in remove.go.
