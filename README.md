# Sorted doubly linked list of unique strings

This project models the ordered string collection in `doubly_linked_list.c`. The
collection is a doubly linked list of heap nodes (`struct list_node_s`, each holding a
string and `prev_p`/`next_p` links) with a head/tail record (`struct list_s`). It keeps
its strings unique and strictly ascending in `strcmp` order. Its operations are:

- `Insert`: the sorted splice, with empty, head, middle, tail and duplicate cases;
- `Delete`: the unlink, with only-node, head, middle, tail and not-found cases;
- `Member`: linear search;
- `Print`: the head-to-tail walk;
- `Free_list`: releases every node.

The project has three modules:

- `sorted_strings.dfy` (module `SortedStrings`) is the value-level view:
  - `StrCmp` mirrors `strcmp`, and `StrLess` is `StrCmp(a, b) < 0`;
  - `Sorted` is strict ascending order;
  - `FirstNotLess` is where the insert scan stops, and `SortedInsert` is what an insert does to the contents;
  - `IndexOf` is where the delete scan stops, and `Remove` is what a delete does to the contents;
  - the lemmas relate these: order, uniqueness, membership, the round trips between insert and delete, and independence from arrival order.
- `doubly_linked_list.dfy` (module `DoublyLinkedList`) is the heap structure:
  - classes `Node` and `List`;
  - the `List` keeps two ghost fields: `nodes`, the chain from head to tail, and `Contents`, the strings the chain holds;
  - `Valid()` ties `nodes` and `Contents` to the links. It requires symmetric `prev`/`next` links, a null `prev` at the head and a null `next` at the tail, head and tail null together, distinct nodes and sorted contents;
  - each C function is a method with the same pointer-walking loop and the same case split, one helper method per structural case;
  - each method's contract states its effect on `Contents` through the functions of `SortedStrings`.
- `scenarios.dfy` (module `Scenarios`) holds client methods. Each drives a list (a new one, or any valid one for `MemberRoundTrip`) through a command sequence the command loop could issue, and proves from the contracts alone what `Print`, `Member`, `Insert` or `Delete` then returns.

## Model

| member | source | states |
|---|---|---|
| SortedStrings.StrCmp | doubly_linked_list.c:133 | the comparison the scans use yields -1, 0 or 1, and 0 exactly when the two strings are equal |
| SortedStrings.StrLess | doubly_linked_list.c:133 | the strict order `strcmp(a, b) < 0` the list is kept in; two strings in that relation are different |
| SortedStrings.Sorted | doubly_linked_list.c:118-119 | the alphabetical order of the list: each string is strictly less than the next one in `strcmp` order |
| SortedStrings.StrCmpAntisymmetric | doubly_linked_list.c:133 | swapping the operands of the comparison negates it |
| SortedStrings.StrLessTransitive | doubly_linked_list.c:133 | `strcmp(a, b) < 0` and `strcmp(b, c) < 0` give `strcmp(a, c) < 0` |
| SortedStrings.StrLessTrichotomy | doubly_linked_list.c:133-135 | two strings are equal or ordered one way, never both ways, and no string is less than itself |
| SortedStrings.SortedPairwise | doubly_linked_list.c:118-119 | in the alphabetical list every earlier string is less than every later one, not only neighbours |
| SortedStrings.SortedHasNoDuplicates | doubly_linked_list.c:219-220 | a sorted list holds each string at most once, so at most one node matches a delete |
| SortedStrings.FirstNotLess | doubly_linked_list.c:133 | the insert scan stops at a position where every earlier string is less than the new one and the string there (if any) is not |
| SortedStrings.FirstNotLessAt | doubly_linked_list.c:133 | that stopping position is unique: any position with both properties is the one the scan reaches |
| SortedStrings.ScanFindsDuplicate | doubly_linked_list.c:133-136 | on sorted contents the duplicate test after the scan succeeds exactly when the string is already in the list |
| SortedStrings.SortedInsertSorted | doubly_linked_list.c:118-119 | inserting at the scan position keeps the contents strictly ascending |
| SortedStrings.SortedInsertElements | doubly_linked_list.c:122-155 | after an insert the list holds exactly the old strings plus the new one, and it grows by one exactly when the string was absent |
| SortedStrings.SortedInsert | doubly_linked_list.c:125-163 | what an insert does to the contents: unchanged when the scan stops on an equal string, otherwise the string placed before the string the scan stopped on, or at the end; the string is always present afterwards, and the contents either stay the same or grow by exactly one |
| SortedStrings.IndexOf | doubly_linked_list.c:226 | the delete scan stops at the first node equal to the string, and runs off the end exactly when the string is absent |
| SortedStrings.IndexOfAt | doubly_linked_list.c:226 | any position holding the first occurrence is the one the delete scan reaches |
| SortedStrings.Remove | doubly_linked_list.c:224-249 | what a delete does to the contents: the string the scan found is taken out, so the contents shrink by exactly one, and they are unchanged when the string is absent |
| SortedStrings.RemoveSorted | doubly_linked_list.c:227-244 | deleting keeps the contents strictly ascending |
| SortedStrings.RemoveElements | doubly_linked_list.c:219-222 | after a delete the list holds every other string and not the deleted one, and it shrinks by one exactly when the string was present |
| SortedStrings.InsertThenRemove | doubly_linked_list.c:224-249 | deleting a string just inserted into a list that lacked it restores the list exactly |
| SortedStrings.RemoveThenInsert | doubly_linked_list.c:125-163 | inserting a string just deleted from a sorted list restores the list exactly, at the same position |
| SortedStrings.SortedUnique | doubly_linked_list.c:118-119 | two sorted lists with the same strings are the same list, so the contents are determined by the set of strings |
| SortedStrings.SortedInsertCommutes | doubly_linked_list.c:118-119 | the contents after two inserts do not depend on the order in which the strings arrived |
| DoublyLinkedList.Node.constructor | doubly_linked_list.c:109-114 | a new node carries the string and has no `prev` or `next` |
| DoublyLinkedList.List.Chained | doubly_linked_list.c:28-38 | the shape of the list: the ghost chain is exactly the nodes reached from head along `next` and from tail along `prev`; every link is mirrored by the link back; head has no `prev` and tail no `next`; the nodes are distinct and node i holds string i |
| DoublyLinkedList.List.Valid | doubly_linked_list.c:28-38 | the list invariant every operation keeps: the chain shape above plus strictly ascending `strcmp` order; under it head is null exactly when tail is null, exactly when the list is empty |
| DoublyLinkedList.List.constructor | doubly_linked_list.c:58 | the list starts empty, with null head and tail |
| DoublyLinkedList.List.Insert | doubly_linked_list.c:125-163 | keeps the invariant. It reports failure exactly when the string was present. The contents become the sorted insert. A duplicate leaves the nodes, head, tail and every link unchanged. Otherwise exactly one fresh node holding the string is spliced in at the scan position. Head changes only for an insert before the head, tail only for one after the tail. |
| DoublyLinkedList.List.LinkOnly | doubly_linked_list.c:157-161 | into the empty list, the new node becomes head and tail with null `prev` and `next` |
| DoublyLinkedList.List.LinkBeforeHead | doubly_linked_list.c:138-142 | the new node becomes the head in front of the old nodes, the tail stays, and the links stay symmetric |
| DoublyLinkedList.List.LinkBefore | doubly_linked_list.c:144-148 | the new node goes between nodes k-1 and k, head and tail stay, and every link stays symmetric |
| DoublyLinkedList.List.LinkAfterTail | doubly_linked_list.c:150-154 | the new node becomes the tail after the old nodes, and the head stays |
| DoublyLinkedList.List.Delete | doubly_linked_list.c:224-249 | keeps the invariant. It reports success exactly when the string was present. The contents become the old contents without it. Not found leaves the nodes, head, tail and every link unchanged. Otherwise exactly the matching node is taken out. Head changes only when that node was first, tail only when it was last. |
| DoublyLinkedList.List.Unlink | doubly_linked_list.c:227-244 | takes node k out by the only-node, head, middle or tail case, and head and tail change exactly when node k was first or last |
| DoublyLinkedList.List.UnlinkOnly | doubly_linked_list.c:229-231 | deleting the only node leaves head and tail null and the list empty |
| DoublyLinkedList.List.UnlinkHead | doubly_linked_list.c:233-235 | deleting the head makes its successor the head, with a null `prev` |
| DoublyLinkedList.List.UnlinkMiddle | doubly_linked_list.c:237-239 | deleting a middle node joins its neighbours to each other and leaves head and tail alone |
| DoublyLinkedList.List.UnlinkTail | doubly_linked_list.c:241-243 | deleting the tail makes its predecessor the tail, with a null `next` |
| DoublyLinkedList.List.Member | doubly_linked_list.c:193-200 | returns 1 exactly when some node holds the string and 0 otherwise, changing nothing |
| DoublyLinkedList.List.Print | doubly_linked_list.c:173-183 | the walk from head along `next` meets exactly the contents, in order |
| DoublyLinkedList.List.FreeList | doubly_linked_list.c:256-266 | leaves head and tail null and the list empty. Every node is released exactly once, head to tail. On an empty list nothing changes. The loop invariant `p != null ==> p !in freed` shows that the walk never reads a node after releasing it |
| Scenarios.ArrivalOrder | doubly_linked_list.c:64-72 | inserting "b", "a", "c" and printing gives `a b c` |
| Scenarios.InOrder | doubly_linked_list.c:64-72 | inserting "apple", "banana", "cherry" and printing gives them in that order |
| Scenarios.InsertMiddle | doubly_linked_list.c:64-72 | inserting "a", "c", "b" puts "b" in the middle |
| Scenarios.InsertTwice | doubly_linked_list.c:64-72 | a second insert of "x" fails and printing gives one `x` |
| Scenarios.DeleteHead | doubly_linked_list.c:64-85 | after inserting "apple" and "banana", deleting "apple" leaves `banana`, and deleting "apple" again fails |
| Scenarios.DeleteAbsent | doubly_linked_list.c:64-85 | deleting a string that was never inserted fails and leaves the list as it was |
| Scenarios.DeleteOnly | doubly_linked_list.c:64-85 | deleting the only string empties the list |
| Scenarios.MemberRoundTrip | doubly_linked_list.c:64-85 | on any valid list, any string is a member right after its insert and is not one right after its delete |
| Scenarios.MemberAfterFree | doubly_linked_list.c:64-89 | no string is a member after the list is freed |

## Left out

- `main`'s command loop, `Get_command`, `Get_string`, `Print_node` and every `printf`/`scanf` are console I/O. The scenario methods stand in for command sequences.
- The "Insert failed" and "Delete failed" messages become the boolean results of `Insert` and `Delete`.
- `Print` returns the sequence of strings instead of writing them out.
- `Member` returns its result to the caller, and the "is in the list" message is not modelled.
- `Allocate_node`'s buffer sizing (`size + 1` bytes, `strcpy`) and a failed `malloc` are not modelled. Nodes are objects allocated by `new`, and a string is an unbounded `seq<char>`.
- `STRING_MAX` and the fixed input buffer are not modelled. Strings are unbounded.
- `Free_node` has no counterpart, because Dafny is garbage collected:
  - a deleted node is dropped from the chain;
  - `FreeList` reports the order of releases instead of performing them.
- On a duplicate insert the C allocates the new node first and never frees it, so the program leaks one node for every rejected insert (doubly_linked_list.c:127-136). The model follows the code and allocates before the duplicate test. Garbage collection drops the node, so the leak does not appear in the model.
- SortedStrings.StrCmp: returns only the sign of `strcmp` (-1, 0 or 1), not the difference of the first differing bytes. The list only ever tests `< 0` and `== 0`.
- SortedStrings.StrCmp: compares characters by code point. For byte strings this is `strcmp`'s unsigned byte order.
