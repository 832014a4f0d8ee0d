# Doubly linked list of owned, nullable strings

A Dafny model of `dll_strings.c`: a doubly linked list (`DList`) of nodes
(`Node`), each owning a heap-allocated C string that may be NULL. The list
keeps `head`, `tail` and `size`. Each node keeps its string and its `prev`
and `next` links. The operations are:

- initialise an empty list;
- append a copy of a value at the tail;
- find the first node whose value matches, where NULL matches only NULL;
- delete a node by its handle;
- delete the first node that matches a value;
- release every node.

The model is imperative, like the C code. `Node` and `DList` are classes
whose fields the methods update in place. `DList` carries three ghost
fields:

- `Nodes` holds the node objects from head to tail.
- `Contents` holds their values in the same order.
- `Repr` is the set of objects the list may update.

`DList.Valid()` ties the pointers to these sequences. Each operation is
specified as an edit of `Contents`, using the functions of module
`ListSpec` on plain sequences. Module `Scenarios` replays the two test
functions of the C file as client code and proves each of their
assertions from the operations' contracts alone.

Files:

- `values.dfy`: module `Values`, the nullable string value, the copy and the matching rule.
- `list_spec.dfy`: module `ListSpec`, the contents as a sequence and the search and removal functions with their lemmas.
- `dlist.dfy`: module `DLists`, the `Node` and `DList` classes, their methods and the structural lemmas.
- `scenarios.dfy`: module `Scenarios`, the test sequences.

## Model

| member | source | states |
|---|---|---|
| Values.StrDupSafe | dll_strings.c:25-32 | The copy stored in a node equals its source: NULL stays NULL and a string keeps its characters. |
| Values.Matches | dll_strings.c:57-58 | The three-way match (both present and equal under `strcmp`, or both NULL) holds exactly when the two optional strings are equal. NULL never matches a present string. |
| ListSpec.FirstMatch | dll_strings.c:55-61 | The search result is absent exactly when no element matches. Otherwise it is a position holding the value with no earlier match, so it is the first match in head-to-tail order. |
| ListSpec.RemoveAt | dll_strings.c:66-70 | Bypassing one position leaves one element fewer. The elements before it keep their positions and those after it move up by one, so relative order is kept. |
| ListSpec.Reverse | dll_strings.c:10-11 | Position `i` of the result holds position `|s|-1-i` of the input. This is the order in which the `prev` chain visits the nodes. |
| ListSpec.DeleteFirstRemovesOneCopy | dll_strings.c:78-81 | Deleting the first match takes out exactly one copy of the value, so the size drops by one. With no match, the contents are unchanged. |
| ListSpec.DeleteFirstKeepsLaterCopies | dll_strings.c:121-123 | When the value occurred at least twice, it is still found after the deletion, at or after the removed position. |
| ListSpec.DeleteFirstSplits | dll_strings.c:78-81 | When a match exists, the result is the prefix before the first match followed by the suffix after it, and the prefix holds no match. |
| DLists.DList.Valid | dll_strings.c:8-18 | The structural invariant: `size` counts the nodes and no node occurs twice. `head` and `tail` are the endpoints and are NULL exactly when `size == 0`. Every node is linked to its neighbours both ways, with NULL beyond the ends. |
| DLists.Node.constructor | dll_strings.c:41-45 | A new node holds the given value and has NULL `prev` and `next` links. |
| DLists.DList.constructor | dll_strings.c:34-38 | `dlist_init` yields the valid empty list: `head` and `tail` are NULL and `size` is 0. |
| DLists.DList.InsertTail | dll_strings.c:40-53 | The contents become the old contents followed by the value, and `size` grows by one. The fresh node is returned as the new tail with its `prev` on the old tail. Into an empty list it is also the head. No other node's value or links change except the old tail's `next`. |
| DLists.DList.FindFirst | dll_strings.c:55-61 | The walk returns NULL exactly when no stored value matches. Otherwise it returns the node at the first matching position. The list is only read. |
| DLists.DList.DeleteNode | dll_strings.c:63-76 | A NULL handle returns 0 and changes nothing. A member node returns 1 and is removed from its position, with the other nodes and values kept in order. Its predecessor and successor bypass it in both directions, `head` or `tail` moves when it was an endpoint, and `size` drops by one. The list stays valid. |
| DLists.DList.DeleteFirstMatch | dll_strings.c:78-81 | The result is 1 when some value matched and 0 otherwise. The new contents are the old ones with only the first match removed. On a match, exactly the node at the first matching position leaves `Nodes` and the footprint, and the other nodes keep their order, so handles to them stay valid. With no match, the nodes, `head`, `tail`, `size` and the footprint are unchanged. |
| DLists.DList.Clear | dll_strings.c:92-102 | The walk releases every node, in head-to-tail order. It leaves the valid empty list with NULL `head` and `tail` and `size` 0, from any valid list, the empty one included. |
| DLists.ForwardWalkFrom | dll_strings.c:56 | Following `next` from position `i` visits exactly the nodes from `i` to the end, then NULL. |
| DLists.BackwardWalkFrom | dll_strings.c:10 | Following `prev` from the node before position `i` visits the first `i` nodes in reverse, then NULL. |
| DLists.MirrorChains | dll_strings.c:8-18 | From the head, `size` steps along `next` reach every node in order and then NULL. From the tail, `size` steps along `prev` reach the same nodes in reverse. The two chains are mirror images, so `size` is the number of reachable nodes. In a non-empty list the tail's `next` and the head's `prev` are NULL. |
| DLists.AppendKeepsValid | dll_strings.c:44-50 | Linking a fresh node after the tail of a valid list gives a valid list with that node and its value appended. |
| DLists.UnlinkKeepsValid | dll_strings.c:66-70 | Bypassing the node at position `k` of a valid list gives a valid list of the remaining nodes and values. |
| DLists.UnlinkNextLinks | dll_strings.c:66-67 | After the bypass, the remaining nodes' `next` links chain them in order, with NULL after the last. |
| DLists.UnlinkPrevLinks | dll_strings.c:69-70 | After the bypass, the remaining nodes' `prev` links chain them in reverse order, with NULL before the first. |
| DLists.IndexOf | dll_strings.c:63 | The position of a member node is in range and holds that node, and the node does not occur earlier. |
| DLists.IndexOfAt | dll_strings.c:79-80 | In a list without repeated nodes, the node found at a position has exactly that position. This links the node `dlist_find_first` returns to the one `dlist_delete_node` removes. |
| DLists.DistinctRemoveAt | dll_strings.c:72-73 | Taking a node out of a duplicate-free node sequence keeps it duplicate-free, and the node is no longer there. |
| DLists.DistinctAppend | dll_strings.c:41-45 | Appending a freshly allocated node keeps the node sequence duplicate-free. |
| Scenarios.BuildFruitList | dll_strings.c:107-115 | Four appends to an initialised list give `[apple, banana, cherry, banana]`, so `size` is 4. |
| Scenarios.DeleteFirstBanana | dll_strings.c:120-122 | Deleting "banana" returns 1 and leaves `[apple, cherry, banana]` with `size` 3. |
| Scenarios.DeleteHead | dll_strings.c:125-127 | Deleting "apple", the head, returns 1 and leaves `[cherry, banana]`. |
| Scenarios.DeleteTail | dll_strings.c:129-131 | Deleting "banana", now the tail, returns 1 and leaves `[cherry]`. |
| Scenarios.DeleteLastThenMissing | dll_strings.c:133-138 | Deleting "cherry" empties the list. Deleting "nope" from the empty list then returns 0. |
| Scenarios.BuildLetterList | dll_strings.c:145-153 | Three appends return the handles `a`, `b`, `c`, which are the list's nodes in order. |
| Scenarios.DeleteMiddle | dll_strings.c:154-155 | Deleting `b` by its handle returns 1 and leaves the nodes `a`, `c` with `size` 2. `a` and `c` are then linked to each other. |

Some members have no contract of their own and so no row:

- `ListSpec.DeleteFirst` (dll_strings.c:78-81) is the effect of `dlist_delete_first_match` on the contents. It is defined from `FirstMatch` and `RemoveAt`, and the `DeleteFirst…` lemmas above state what it means.
- `Scenarios.BasicOps` (dll_strings.c:106-142) and `Scenarios.DeleteByNodePointer` (dll_strings.c:144-159) replay the two test functions by calling the step methods listed above in order, then `Clear`.
- `Scenarios.SearchFruit` (dll_strings.c:117-118), `Scenarios.SearchRemainingBanana` (dll_strings.c:123) and `Scenarios.SearchLetters` (dll_strings.c:156) prove the test assertions about searches with `assert` statements in their bodies.

## Left out

- `dlist_print` (dll_strings.c:83-90) formats the list on standard output with `printf`. It is display code with no list logic, and output is not modelled.
- The `die` path on a failed `malloc` (dll_strings.c:20-23, 29, 42) is not modelled: allocation (`new`) always succeeds here.
- `free` (dll_strings.c:72-73, 96-97) has no counterpart. A released node leaves the list's `Nodes` and its `Repr` footprint, and `DList.Clear` returns the released nodes, in order, as a ghost sequence.
- `StrDupSafe` works on whole strings: the byte-level `strlen` and `memcpy` of `strdup_safe` (dll_strings.c:27-30) are modelled as copying a `seq<char>`, and `strcmp == 0` as sequence equality. A C string cannot contain a NUL character, but a `string` here can; this does not change any behaviour modelled.
- `DLists.DList.DeleteNode`: the `!list` test (dll_strings.c:64) cannot be modelled, because a method's receiver is never null. Only the NULL-node case is modelled.
- `DLists.DList.DeleteNode` requires a non-NULL handle to be a node of this list. The C code does not check this: a foreign or already released node is undefined behaviour there.
- The size field is a `nat`, so the wrap-around of the unsigned `size_t` counter is not modelled. It never arises here: `size` is only decremented when a node is removed, so it is never 0 at that point.
- `main` (dll_strings.c:161-175) and its demonstration output are not modelled. Its two test functions are replayed in module `Scenarios`.
