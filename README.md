# Linked list and fixed-size array containers

This project models the two containers of a small C++ container library.

- **`List<T>`** (`ListContainer.h`) is a doubly linked list of heap nodes. A list keeps a first pointer, a last pointer and a node count. Each node holds its data and its previous and next pointers. The model covers:
  - insertion at either end;
  - search-driven removal and replacement;
  - resizing, de-duplication, swapping and clearing;
  - a selection sort that relinks nodes instead of moving data;
  - merging, concatenation and splicing of whole chains;
  - a saturating iterator.
- **`Array<T>`** (`ArrayContainer.h`) is a size plus a heap buffer. It has checked subscripting, element-wise comparison and deep assignment.

Both are modelled imperatively, as the source is written:

- A `Node` class has `data`, `prev` and `next` fields.
- A `List` class has `first`, `last` and `count`, plus the ghost sequences `nodes` and `elems` and a `Repr` footprint.
  - `List.Valid()` states that the chain from `first` to `last` is null-terminated and doubly linked, that its nodes are distinct, and that `count` is its length.
  - Every operation is specified by its effect on `elems`, and most also by their effect on `nodes`. These effects are stated against the specification functions of `ListSpec`: `IndexFrom`, `LastIndexBelow`, `MinIndexFrom`, `DropAt`, `RemoveMatching`, `ReplaceAll`, `Swapped`, `Resized`, `Dedup`, `Merge` and `Sorted`. Their properties are proved as lemmas.
- An `Array` class holds a `size` and a nullable `array` buffer.
- C++ exceptions become `Result`/`Outcome` values that carry an `Error` kind. A failing operation changes nothing.

List elements are `int`, because sorting, merging and `isSorted` need an order. The array stays generic.

Modules:

| file | module | content |
|---|---|---|
| `errors.dfy` | `Errors` | error kinds, `Result`, `Outcome` |
| `list_spec.dfy` | `ListSpec` | value-level specification of the list operations and their lemmas |
| `list_nodes.dfy` | `ListNodes` | the node class, chain predicates, and relinking lemmas for cutting, inserting and transposing nodes |
| `list_container.dfy` | `LinkedList` | the list class, the iterator, all list operations |
| `array_container.dfy` | `ArrayContainer` | the array class |
| `source_defects.dfy` | `SourceDefects` | the behaviours listed under Findings, modelled as written |

Where the code and its documentation comments disagree, the model follows the code:

- `Unique` (`ListContainer.h:769-785`) is documented as collapsing consecutive duplicates. It actually removes every later copy of each value, so the result is `Dedup`: first occurrences, in order.
- `Sort` (`ListContainer.h:787-804`) is documented as an insertion sort. It is a selection sort: repeated `FindMinimum` plus `SwapNodes`.
- The range constructor (`ListContainer.h:246-272`) is documented as `[begin, end)`. It also appends `*end`, which matches `end()` returning the last node (`ListContainer.h:145-153`).
- `isSorted()` is false on an empty list (`ListContainer.h:102`).
- List `operator==` compares first pointers only (`ListContainer.h:105-106`). In the model, emptying a list always nulls both end pointers, so two distinct lists are equal exactly when both are empty. The code as written does not keep this: `RemoveLast` on a one-node list leaves `firstPtr` on the deleted node (see Findings), and that empty list then compares unequal to a freshly constructed one.
- `EraseAll` (`ListContainer.h:664-670`) is declared to return the list but returns nothing. The model is a method without a result.
- In `Merge`, an element of this list stays ahead of an equal element of the other list. This is because a node moves over only when `currentNodeL1->data > currentNodeL2->data`.
- The list-at-node `Append` (`ListContainer.h:1321-1351`) has an "empty list → `Swap`" branch (`ListContainer.h:1333-1334`). The model requires the base node to be a node of this list, so under that requirement the list is not empty and the branch is not reached. The code never checks that the base node belongs to this list: a caller can pass another list's node and reach the branch. That case is listed under Left out.
- The null check in `Splice` (`ListContainer.h:890-891`) cannot fire, because an iterator never holds a null node (`ListContainer.h:121-122`).

## Model

| member | source | states |
|---|---|---|
| LinkedList.List.Valid | ListContainer.h:174-177 | a valid list contains itself in its footprint; the predicate ties `first`, `last` and `count` to a distinct, doubly linked, null-terminated chain |
| ListNodes.Node.constructor | ListContainer.h:185-186 | a new node holds the given data and has no neighbours |
| LinkedList.List.constructor | ListContainer.h:213-216 | the default list is valid and empty, with a fresh footprint |
| LinkedList.List.Sized | ListContainer.h:222-229 | a list of `n` default (zero) elements |
| LinkedList.List.Fill | ListContainer.h:236-244 | a list of `n` copies of `x` |
| LinkedList.List.Range | ListContainer.h:255-272 | the list holds `s[b..e+1]`, the end element included |
| LinkedList.List.Copy | ListContainer.h:279-294 | the copy holds the same elements as the source, in nodes of its own disjoint from the source's |
| LinkedList.List.CopyStep | ListContainer.h:289-293 | one round of the copy loop: the prefix copied so far grows by the iterator's element, and the iterator advances saturating at the last node |
| LinkedList.List.Move | ListContainer.h:301-312 | the new list takes over the source's chain and elements; the source is left valid and empty |
| LinkedList.List.FromSeq | ListContainer.h:318-325 | the list holds the given elements in order |
| LinkedList.List.Append | ListContainer.h:344-362 | the elements become `old + [x]`; the old nodes keep their positions and one fresh node goes last; the list stays valid |
| LinkedList.List.Prepend | ListContainer.h:370-388 | the elements become `[x] + old`, with a fresh node first |
| LinkedList.List.First | ListContainer.h:446-453 | the first element, or an empty-container error |
| LinkedList.List.Last | ListContainer.h:460-467 | the last element, or an empty-container error |
| LinkedList.List.RemoveIfMatch | ListContainer.h:509-526 | removes exactly the elements the predicate accepts; the rest keep their order |
| LinkedList.List.RemoveFirst | ListContainer.h:532-547 | drops the head element and its node; does nothing on an empty list; emptying the list nulls both end pointers |
| LinkedList.List.RemoveLast | ListContainer.h:553-568 | drops the tail element and its node; does nothing on an empty list |
| LinkedList.List.RemoveIf | ListContainer.h:575-580 | removes exactly the elements equal to `x`, keeping the order of the rest |
| LinkedList.List.RemoveFirstOf | ListContainer.h:587-593 | removes the element at the first index holding `x`, walking forward; no change when there is none |
| LinkedList.List.RemoveLastOf | ListContainer.h:600-606 | removes the element at the last index holding `x`, walking backward; no change when there is none |
| LinkedList.List.RemoveIfNot | ListContainer.h:613-630 | removes exactly the elements different from `x` |
| LinkedList.List.RemoveFirstNotOf | ListContainer.h:637-644 | removes the first element different from `x` |
| LinkedList.List.RemoveLastNotOf | ListContainer.h:651-658 | removes the last element different from `x` |
| LinkedList.List.EraseAll | ListContainer.h:664-670 | leaves the list valid and empty, inside its old footprint |
| LinkedList.List.ReplaceAllWith | ListContainer.h:677-692 | every element equal to `o` becomes `n`; the others, the length and the nodes are unchanged |
| LinkedList.List.ReplaceFirstWith | ListContainer.h:699-706 | only the first occurrence of `o` becomes `n`; no change without one |
| LinkedList.List.ReplaceLastWith | ListContainer.h:713-720 | only the last occurrence of `o` becomes `n`; no change without one |
| LinkedList.List.Swap | ListContainer.h:728-750 | the two lists exchange their elements and chains, and self-swap changes nothing |
| LinkedList.List.Exchange | ListContainer.h:738-749 | for two distinct lists, each takes the other's chain, count and end pointers, and both stay valid |
| LinkedList.List.Resize | ListContainer.h:757-767 | the elements become the old ones truncated or padded with `x` to length `n` |
| LinkedList.List.Unique | ListContainer.h:772-785 | the elements become `Dedup(old)`: the first occurrence of each value, in first-occurrence order |
| LinkedList.List.Sort | ListContainer.h:790-804 | the elements end ascending and form a permutation of the old ones; the nodes are only relinked: the same multiset of nodes, each keeping its data; the footprint is unchanged |
| LinkedList.List.Merge | ListContainer.h:824-851 | this list ends sorted, holding the multiset union of both lists' elements, in exactly the multiset union of both lists' nodes; every node keeps its data, so nodes are relinked and never rewritten; when both lists arrive sorted, the nodes end in `MergeBy` order, with an element of this list ahead of an equal element of the other; the other list ends empty |
| LinkedList.List.SortBoth | ListContainer.h:827-832 | each list ends sorted and a permutation of itself, in nodes that keep their data; a list that is already sorted is left as it was |
| ListNodes.HoldsMerge | ListContainer.h:836-846 | merging chains by the keys their nodes hold gives a chain holding the merged keys: the merge moves nodes, not data |
| LinkedList.List.MergeRuns | ListContainer.h:834-850 | the merging loop with the empty-list guard added: the elements become `Merge(old, other)` (on ties this list's element first), nodes are moved rather than copied, and the other list ends empty |
| LinkedList.List.MergeStep | ListContainer.h:838-845 | one round of the merging loop keeps the loop invariant against the final merge and strictly decreases the remaining work |
| LinkedList.List.MoveHead | ListContainer.h:841-842 | the other list's first node is moved in before position `p` of this list |
| LinkedList.List.Concatenate | ListContainer.h:857-880 | the elements become `a + b` and the nodes are moved across, also when this list is empty; the other list ends empty |
| LinkedList.List.Splice | ListContainer.h:887-894 | the other list's elements are inserted after the iterator's node at position `k`, giving `a[..k+1] + b + a[k+1..]`; the other list's nodes are moved in at the same place, in order, and the other list ends empty |
| LinkedList.List.AppendList | ListContainer.h:1321-1351 | splice after a base node: a null base is an invalid-node error that changes neither list; otherwise the elements become `a[..k+1] + b + a[k+1..]` and the nodes likewise, with the other list's nodes moved in order after the base node, and the other list emptied |
| LinkedList.List.AppendBeside | ListContainer.h:291 | the copy loop's `Append`: the element is appended while the list being read stays valid, disjoint and unchanged |
| LinkedList.List.SelectMinimum | ListContainer.h:800-802 | one selection round: the sorted prefix grows by one, the elements and the nodes stay permutations of the old ones, each node keeps its data, and the next node to fill is returned |
| LinkedList.List.RemoveInner | ListContainer.h:1095-1100 | removing a middle node drops exactly that node and its element, keeping the list valid |
| LinkedList.List.Bypass | ListContainer.h:1096-1097 | the two neighbours of a removed node point at each other; their other links and data are unchanged |
| LinkedList.List.Unhook | ListContainer.h:1062-1077 | the node at `j` leaves the chain and the footprint, keeping its data, with both links cleared |
| LinkedList.List.UnhookFirst | ListContainer.h:1062-1077 | the same for the first node |
| LinkedList.List.UnhookLast | ListContainer.h:1062-1077 | the same for the last node of a list of at least two |
| LinkedList.List.RemoveFirstMatch | ListContainer.h:590 | removes the element at the first matching index, found by the forward search; no change when nothing matches |
| LinkedList.List.RemoveLastMatch | ListContainer.h:603 | removes the element at the last matching index, found by the backward search; no change when nothing matches |
| LinkedList.List.RemoveAndAdvance | ListContainer.h:1121-1122 | the found node is removed and its successor, now at the same position, is returned; the nodes before it are unchanged |
| LinkedList.List.RemoveRound | ListContainer.h:1118-1124 | one round of the removal loop keeps the filter invariant, shrinks the unscanned part and finds the next match, null exactly when there is none |
| LinkedList.List.Rewrite | ListContainer.h:688 | the data write of the replace operations (also at lines 705 and 719): the element at the node's position becomes `n`, the nodes unchanged; a null node changes nothing |
| LinkedList.List.TradeFields | ListContainer.h:737-749 | the two lists exchange end pointers, counts, chains and footprints |
| LinkedList.List.RelinkNeighbours | ListContainer.h:1167-1184 | transposing the nodes at `i` and `i+1` keeps the chain linked, with the nodes and elements swapped and every node keeping its data |
| LinkedList.List.RewireNeighbours | ListContainer.h:1167-1184 | the link writes of the transposition realise exactly the swapped chain |
| LinkedList.List.Transpose | ListContainer.h:1167-1184 | the link writes themselves: the two nodes and their outer neighbours point as the swapped order demands, and the end pointers follow |
| LinkedList.List.SwapApart | ListContainer.h:1208-1262 | exchanging two nodes that are not neighbours keeps the list valid, swaps exactly those nodes and elements, and keeps every node's data |
| LinkedList.List.RelinkApart | ListContainer.h:1208-1262 | the exchange of two non-neighbours keeps the chain linked and gives the swapped chain |
| LinkedList.List.RewireApart | ListContainer.h:1208-1262 | the link writes of that exchange realise exactly the swapped chain |
| LinkedList.List.Interchange | ListContainer.h:1208-1262 | the link writes themselves: each node takes the other's neighbours, which point back at it, and the end pointers follow |
| LinkedList.List.DetachFirst | ListContainer.h:841 | the other list's first node leaves it with its element, the rest of that list staying valid |
| LinkedList.List.Clear | ListContainer.h:877-879 | the list that handed its nodes over is left valid and empty, owning only itself |
| LinkedList.List.LinkAtEnd | ListContainer.h:863-871 | linking a chain after the last node gives `old + chain` for nodes and elements, and the list owns the chain |
| LinkedList.List.LinkAfter | ListContainer.h:1337-1341 | linking a chain after an inner base node inserts it at `k+1` in both nodes and elements |
| ArrayContainer.Array.Wrap | ArrayContainer.h:68 | the member initialisers: the recorded size and the buffer are exactly those given |
| LinkedList.List.IsEmpty | ListContainer.h:100 | true exactly when there are no elements |
| LinkedList.List.GetNodeCount | ListContainer.h:101 | the number of elements |
| LinkedList.List.IsSorted | ListContainer.h:102 | true exactly when the list is non-empty and ascending |
| ListNodes.IsSortedFrom | ListContainer.h:193-202 | the node-by-node recursion agrees with the ascending check of the elements from that node on |
| LinkedList.List.Equals | ListContainer.h:105-106 | true exactly when the lists are the same list or both are empty |
| LinkedList.List.NotEquals | ListContainer.h:107-108 | the negation of `Equals` |
| LinkedList.List.Begin | ListContainer.h:137-143 | an iterator on the first node, or an empty-container error |
| LinkedList.List.End | ListContainer.h:145-153 | an iterator on the last node (not past it), or an empty-container error |
| LinkedList.NewIterator | ListContainer.h:121-122 | a null node is refused with an invalid-iterator error; otherwise the iterator holds the node |
| LinkedList.Iterator.constructor | ListContainer.h:121 | the iterator holds the given node |
| LinkedList.Iterator.Increment | ListContainer.h:124-125 | moves to the next position, staying on the last node |
| LinkedList.Iterator.Decrement | ListContainer.h:126-127 | moves to the previous position, staying on the first node |
| LinkedList.Iterator.Get | ListContainer.h:129 | the element at the iterator's position |
| LinkedList.Iterator.Equals | ListContainer.h:130 | true exactly when both iterators are at the same position |
| LinkedList.Iterator.NotEquals | ListContainer.h:131 | true exactly when they are at different positions |
| LinkedList.List.Find | ListContainer.h:921-938 | the node at the first index from `b` on that holds `x`, or null |
| LinkedList.List.FindNotOf | ListContainer.h:948-965 | the node at the first index from `b` on that holds a value other than `x`, or null |
| LinkedList.List.FindReversed | ListContainer.h:975-992 | the node at the last index up to `e` that holds `x`, or null |
| LinkedList.List.FindNotOfReversed | ListContainer.h:1002-1019 | the node at the last index up to `e` that holds a value other than `x`, or null |
| LinkedList.List.FindFrom | ListContainer.h:921-938 | the forward search for any key: the node at `IndexFrom`, and null exactly when nothing matches |
| LinkedList.List.FindBackFrom | ListContainer.h:975-992 | the backward search for any key: the node at `LastIndexBelow`, and null exactly when nothing matches |
| LinkedList.List.FindMinimum | ListContainer.h:1027-1048 | the node of the first smallest element from `b` on; a null start or an empty list is an error |
| LinkedList.List.DetachNode | ListContainer.h:1055-1078 | on an empty list, an empty-container error; otherwise the node leaves the chain and the footprint with its data kept and its links cleared |
| LinkedList.List.RemoveNode | ListContainer.h:1084-1102 | a null node changes nothing; otherwise exactly that node's element and node are dropped |
| LinkedList.List.RemoveMatchesFrom | ListContainer.h:1110-1127 | from position `|p|` on, removes exactly the elements the key matches, keeping the prefix and the order of the rest |
| LinkedList.List.SwapNodes | ListContainer.h:1135-1152 | exchanges exactly the nodes and elements at `i` and `j`, every node keeping its data; a null node is an invalid-node error |
| LinkedList.List.SwapSuccessiveNodes | ListContainer.h:1160-1185 | exchanges the nodes at `i` and `i+1` when `b` follows `a`, every node keeping its data; otherwise a not-successive error with no change |
| LinkedList.List.SwapNonSuccessiveNodes | ListContainer.h:1194-1263 | exchanges two nodes that are not neighbours, every node keeping its data; a null node or the same node twice is an error with no change |
| LinkedList.List.AppendNode | ListContainer.h:1271-1288 | inserts a detached node right after the base node at position `k`; a null node is an invalid-node error |
| LinkedList.List.PrependNode | ListContainer.h:1296-1313 | inserts a detached node right before the base node at position `k`; a null node is an invalid-node error |
| ListSpec.IndexFrom | ListContainer.h:921-965 | the first index at or after `b` that matches, or the length: every index skipped fails to match |
| ListSpec.LastIndexBelow | ListContainer.h:975-1019 | the last index below `e` that matches, or -1: every index skipped fails to match |
| ListSpec.MinIndexFrom | ListContainer.h:1027-1048 | an index holding the least element from `b` on, with every earlier index of the range holding a larger one |
| ListSpec.ReplaceAll | ListContainer.h:677-692 | same length; each element equal to `o` becomes `n` and the rest are unchanged |
| ListSpec.Swapped | ListContainer.h:1135-1152 | the two positions are exchanged, the others unchanged, and the multiset is preserved |
| ListSpec.Resized | ListContainer.h:757-767 | length `n`, the old elements kept where they fit, and `x` beyond |
| ListSpec.RemoveMatchingCount | ListContainer.h:509-526 | filtering keeps every count of an unmatched value and drops every matched one |
| ListSpec.RemoveMatchingHas | ListContainer.h:509-526 | a value survives filtering exactly when it was present and is not matched |
| ListSpec.RemoveMatchingAppend | ListContainer.h:1110-1127 | filtering distributes over concatenation, so a filter from a position keeps the prefix |
| ListSpec.RemoveMatchingNone | ListContainer.h:1110-1127 | a filter that matches nothing changes nothing |
| ListSpec.SelectStep | ListContainer.h:798-803 | one selection-sort round, which swaps the minimum of the unsorted part to its front, extends the sorted prefix by one |
| ListSpec.ChainSortedIffSorted | ListContainer.h:193-202 | the node-by-node neighbour check is equivalent to ascending order |
| ListSpec.SortedUnique | ListContainer.h:790-804 | two ascending arrangements of the same multiset are equal, so the result of sorting is determined |
| ListSpec.MergeByPermutation | ListContainer.h:824-851 | merging keeps the multiset union of the two inputs |
| ListSpec.MergeSorted | ListContainer.h:824-851 | merging two ascending sequences gives an ascending sequence whose head is the smaller head |
| ListSpec.MergeLoopTake | ListContainer.h:839-843 | moving the other list's head in before the cursor keeps the merge invariant |
| ListSpec.MergeLoopKeep | ListContainer.h:844-845 | advancing the cursor past a smaller-or-equal element keeps the merge invariant |
| ListSpec.MergeLoopDone | ListContainer.h:849-850 | once the cursor is past the end or the other list is empty, appending the rest completes the merge |
| ListSpec.DedupSameValues | ListContainer.h:772-785 | de-duplication keeps exactly the set of values |
| ListSpec.DedupDistinct | ListContainer.h:772-785 | after de-duplication no two elements are equal |
| ListSpec.DedupOfDistinct | ListContainer.h:772-785 | a sequence without duplicates is left as it is |
| ListSpec.DedupIdempotent | ListContainer.h:772-785 | de-duplicating twice equals de-duplicating once |
| ListSpec.DedupExample | ListContainer.h:772-785 | `[3,1,3,2,1]` becomes `[3,1,2]` |
| ListSpec.UniqueLoopStep | ListContainer.h:779-783 | one round of `Unique`, which removes the later copies of the current value and advances, keeps the loop invariant and shrinks the unscanned tail |
| ListSpec.UniqueLoopDone | ListContainer.h:777-784 | when the cursor runs off the end, the elements are `Dedup` of the original |
| ListSpec.RemoveScanRound | ListContainer.h:517-522 | one round of the predicate loop: a matching element is dropped at the cursor and the cursor stays put, any other element is kept and the cursor moves past it; the scanned part grows by one either way |
| ListSpec.RemoveLoopStep | ListContainer.h:1118-1124 | removing the next match from the cursor on keeps the filter invariant |
| ListSpec.RemoveLoopDone | ListContainer.h:1117-1126 | when no match is left, the elements are the prefix followed by the filtered rest |
| ArrayContainer.Array.GetSize | ArrayContainer.h:52-53 | the number of elements held: zero when there is no buffer |
| ArrayContainer.Array.OfSize | ArrayContainer.h:66-74 | a zero size is refused; otherwise a fresh buffer of exactly `n` elements |
| ArrayContainer.Array.Copy | ArrayContainer.h:81-93 | a source without elements is refused; otherwise a fresh buffer with the same elements in order |
| ArrayContainer.Array.Move | ArrayContainer.h:100-112 | the new array owns the source's buffer and elements; the source's buffer becomes null and its recorded size stays |
| ArrayContainer.Array.FromBuffer | ArrayContainer.h:121-135 | a zero size is refused first, then a null source; otherwise the first `n` source elements in order |
| ArrayContainer.Array.FromSeq | ArrayContainer.h:142-154 | an empty list is refused; otherwise the given elements in order |
| ArrayContainer.Array.Get | ArrayContainer.h:173-188 | the stored element below the size; without a buffer an invalid-state error, otherwise a range error carrying size and index |
| ArrayContainer.Array.Set | ArrayContainer.h:197-212 | writes exactly the one element below the size; on error nothing changes and the error is that of `Get` |
| ArrayContainer.Array.Equals | ArrayContainer.h:220-237 | false on differing sizes or a right side without buffer, true on a shared buffer, otherwise element-wise equality |
| ArrayContainer.Array.NotEquals | ArrayContainer.h:245-249 | the negation of `Equals`, with the same error |
| ArrayContainer.Array.Assign | ArrayContainer.h:259-272 | this array ends holding exactly the right-hand elements and size, in a fresh buffer when the arrays differ; self-assignment keeps everything |
| SourceDefects.MergeAsWritten | ListContainer.h:834-850 | the merging loop without the guard, finished by the concatenation as written: when it completes, it keeps the multiset; it fails whenever this list still has nodes and the other has none, and when an empty list receives a non-empty one |
| SourceDefects.MergeAsWrittenFails | ListContainer.h:836-839 | whenever every element of the other list is below this list's last element, the loop as written reads the emptied other list |
| SourceDefects.MergeIntoEmptyCounterexample | ListContainer.h:849-850 | merging `[1]` into `[]` skips the loop and fails in the concatenation as written, while the intended merge is `[1]` |
| SourceDefects.MergeCounterexample | ListContainer.h:836-839 | merging `[3]` into `[5]` fails as written, while the intended merge is `[3,5]` |
| SourceDefects.ConcatenateAsWritten | ListContainer.h:857-880 | fails exactly when this list is empty and the other is not; otherwise `a + b` |
| SourceDefects.ConcatenateCounterexample | ListContainer.h:863-868 | concatenating `[1]` onto an empty list fails as written |
| SourceDefects.RemoveFirstAsWritten | ListContainer.h:532-547 | the count drops, but removing the only node leaves the last pointer on the deleted node |
| SourceDefects.RemoveLastAsWritten | ListContainer.h:553-568 | the count drops, but removing the only node leaves the first pointer on the deleted node |
| SourceDefects.StaleEndCounterexample | ListContainer.h:538-564 | on a one-node list, either removal leaves end pointers that disagree with the count |
| SourceDefects.MoveAsWritten | ArrayContainer.h:100-112 | the move passes the buffer on and nulls the source's buffer, but keeps the source's size |
| SourceDefects.MovedFromReadsNull | ArrayContainer.h:176-177 | every index the written guard accepts on a moved-from array is a read without a buffer, while the moved-to array can read it |
| SourceDefects.AssignAsWritten | ArrayContainer.h:259-272 | distinct arrays get the right-hand elements; self-assignment gets the new buffer's unspecified contents |
| SourceDefects.SelfAssignmentLoses | ArrayContainer.h:262-269 | self-assignment as written loses the elements whenever the new buffer's contents differ from them |

## Left out

- `PrintAll`, both `operator<<` and the array `operator>>` are left out: they are stream I/O.
- The list destructor, the array destructor, `delete` and allocation failure are left out. Memory appears only as the `Repr` footprint and as fresh objects.
- Exception message strings are left out. Only the kind of error is modelled, and a `Fail`/`Err` leaves the state unchanged, as a throw before any write does.
- `EmplaceAppend` and `EmplacePrepend` (`ListContainer.h:395-439`) are covered by `Append` and `Prepend`. Constructor arguments are forwarded to a value of the element type, so inserting that value has the same effect.
- List elements are `int`, not a template parameter, because `Sort`, `Merge` and `isSorted` need `<`. Nothing else in the list depends on the element type.
- The range constructor takes a sequence and two indices in place of foreign iterators.
- LinkedList.List.First: models the const accessors only. Writing through the reference returned by the non-const overloads (`ListContainer.h:474-495`) is not modelled.
- LinkedList.List.Last: the same; writes through the returned reference are not modelled.
- LinkedList.Iterator.Get: reads the element only. Writing through the reference that `operator*` returns is not modelled.
- LinkedList.List.Concatenate: requires the other list to be a different list (`Repr !! other.Repr`). As written, `l.Concatenate(l)` on a non-empty list points the first node back at the last and the last forward at the first (`ListContainer.h:867-868`), doubles the count (line 874), and then clears the same object (lines 877-879). The list ends empty and its nodes are leaked in a cycle. On an empty list the call returns at line 860 and changes nothing.
- LinkedList.List.Merge: the same exclusion. As written, `l.Merge(l)` first sorts the list. Each round then compares the cursor with `anotherList.firstPtr` (`ListContainer.h:838-839`), which is the list's own first node. At the first node greater than that one, `DetachNode` takes the first node out and `Prepend` puts it back in front of the cursor (lines 841-842). The cursor does not move, and the rounds repeat the same states. So merging a list into itself does not terminate when the list holds two distinct values. When all elements are equal, the cursor walks off the end, and `Concatenate(l)` at lines 849-850 has the outcome above. An empty list is left unchanged.
- LinkedList.List.MergeRuns: the same exclusion as `Merge`, whose loop it models.
- LinkedList.List.AppendList: the same exclusion. As written, with `baseNode == lastPtr` the call is `Concatenate(l)`. Otherwise lines 1337-1341 put the list's own first node after the base node and its own last node before the base node's old successor. Lines 1347-1349 then clear the list, which ends empty with its nodes leaked in a cycle.
- LinkedList.List.Splice: the same exclusion as `AppendList`, which it calls.
- LinkedList.List.AppendList: requires the base node to be a node of this list, at the ghost position `k`. The code never checks this. A node of another list reaches the `Swap` branch (`ListContainer.h:1333-1334`) when this list is empty and the other list is not; an empty other list returns earlier, at lines 1330-1331. When this list is not empty, such a node makes the code relink the foreign chain. Neither case is modelled.
- LinkedList.List.Resize: the default argument `data = 0` (`ListContainer.h:91`) is not modelled separately. The padding value is always passed explicitly, and the one-argument call is `Resize(n, 0)`.
- LinkedList.List.RemoveIfMatch: the template predicate `RuleT Predicate` (`ListContainer.h:73-74`, `509-511`) is modelled as a pure, total `rule: int -> bool`. Predicates that keep state, have side effects or throw are not covered.
- Prefix and postfix `++`/`--` behave the same and are modelled once each, by `Increment` and `Decrement`.
- The iterator and node-level private operations take a ghost index that locates their node in the list's chain. In the source, such a node is any node of this list.
- `List.Equals` and `List.Swap` require the two lists to share no nodes unless they are the same list. Well-formed programs always meet this, since every node is owned by one list.
- ArrayContainer.Array.Copy, ArrayContainer.Array.FromBuffer and ArrayContainer.Array.Assign write the new buffer directly, not through the checked subscript. The writes happen at indices below the new size, so the subscript's checks cannot fail there.
- Values of a freshly allocated element buffer are whatever Dafny's default for the element type is. The source leaves them unspecified for built-in types.

## Findings

| source | as written | input that shows it | evidently intended | confidence | as-written member | corrected member |
|---|---|---|---|---|---|---|
| ListContainer.h:836-839 | the merging loop runs while this list has a current node and reads `anotherList.firstPtr->data` each round, even after the other list has been emptied or when it was empty from the start | merging `[3]` into `[5]`; merging `[1]` into `[]`, which skips the loop and fails in the concatenation of the next row; or any non-empty list merged with an empty one | the loop also stops when the other list is empty; the remaining nodes are then concatenated | not executed | SourceDefects.MergeAsWrittenFails | LinkedList.List.MergeRuns |
| ListContainer.h:863-868 | concatenation into an empty list sets `firstPtr` and then writes through the null `lastPtr` | concatenating `[1]` onto `[]` | an empty list takes over the other list's chain | not executed | SourceDefects.ConcatenateAsWritten | LinkedList.List.Concatenate |
| ListContainer.h:538-543 | `RemoveFirst` on a one-node list leaves `lastPtr` on the deleted node | removing the first element of `[7]` | both end pointers become null when the count reaches zero | not executed | SourceDefects.RemoveFirstAsWritten | LinkedList.List.RemoveFirst |
| ListContainer.h:559-564 | `RemoveLast` on a one-node list leaves `firstPtr` on the deleted node | removing the last element of `[7]` | both end pointers become null when the count reaches zero | not executed | SourceDefects.RemoveLastAsWritten | LinkedList.List.RemoveLast |
| ArrayContainer.h:176-177 | a moved-from array keeps its size (line 111 nulls only the buffer), and the subscript's `index < size` test reads through the null buffer | move from an array of two elements, then read index 0 of the source | an array without a buffer reports the invalid-state error | not executed | SourceDefects.MovedFromReadsNull | ArrayContainer.Array.Get |
| ArrayContainer.h:262-269 | self-assignment frees the buffer, allocates a new one and copies from that new, uninitialised buffer into itself | `a = a` on any array whose new buffer does not happen to hold the old elements | self-assignment leaves the array unchanged | not executed | SourceDefects.SelfAssignmentLoses | ArrayContainer.Array.Assign |
