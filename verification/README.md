# Sorted integer lists and a bounded stack, modelled in Dafny

This project models two small sequential cores of an operating-systems
coursework repository.

**The sorted integer list** (`HWs/HW3`) comes in two implementations behind
one interface: create, insert, delete and lookup. Each operation returns 0 for
success or "found" and -1 for failure or "not found". The coarse-grained
variant (`cll_global.c`) guards the list with one mutex. The hand-over-hand
variant (`cll_hoh.c`) locks node by node. With the locks set aside, each
operation is a deterministic transformation of the sequence of keys read from
the head. The model is therefore `seq<int>` with pure functions:

- `ListInterface` holds the interface, its contracts, and reference definitions:
  - `FirstAtLeast` is the tie-break position, the first key that is >= the new key.
  - `FirstIndexOf` is the head-most match.
- `ListScan` is the insertion walk. It is written identically in both files, so it is defined once here.
- `GlobalList` models `cll_global.c`.
- `HohList` models `cll_hoh.c`.
- `VariantComparison` relates the two variants.

Which node sits where among equal keys is observable only through node
identity. The model captures it as the index at which each variant links the
new node (`InsertPoint`).

**The bounded array stack** (`HWs/HW0/Simple_DS.c`) is an immutable `Stack`
value: the 100-slot array as a sequence plus the `top` index. Push and pop are
pure functions over it. Its fixed test program `main` is replayed as a function whose contract states what it pops.

The two variants use different head tests. `cll_global.c:66` links the new
node at the head when `head->key >= key`, while `cll_hoh.c:80` does so only
when `key < head->key`. A key equal to the head's key is therefore linked in
before the head by the coarse-grained list and *after* the head by the
hand-over-hand list. The model encodes each test as written and proves the
consequence (`VariantComparison.PlacementDiffersOnlyOnHeadTie`,
`HohList.HeadTieKeepsOlderHead`). For instance, after inserting 3, 8 and 3 into
a fresh list and then deleting 3, the coarse-grained list has unlinked the
second 3 inserted and the hand-over-hand list the first. On ascending lists the
resulting key sequences are still identical
(`VariantComparison.SortedInsertsAgree`). On lists that are not ascending they
can differ (`VariantComparison.UnsortedInsertsDiverge`).

## Model

| member | source | states |
|---|---|---|
| ListInterface.Create | HWs/HW3/cll_global.c:21-28 | a list exists exactly when the header allocation succeeds, and a new list has no nodes |
| ListInterface.InsertContract | HWs/HW3/list.h:13-14 | insert either returns -1 with the list unchanged, or returns 0 having added exactly one copy of the key, with an ascending list staying ascending |
| ListInterface.DeleteContract | HWs/HW3/list.h:16-17 | delete of a present key returns 0 and removes exactly one copy, keeping an ascending list ascending; delete of an absent key returns -1 and changes nothing |
| ListInterface.LookupContract | HWs/HW3/list.h:19-20 | lookup returns 0 when the key is present and -1 when it is absent |
| ListInterface.InsertAtSorted | HWs/HW3/list.h:13-14 | linking a key between neighbours that bracket it keeps an ascending list ascending |
| ListInterface.InsertAt | HWs/HW3/cll_global.c:79-80 | the splice of a new node: the result is one node longer, holds the key at the given index, keeps every node before it, and shifts every node after it by one |
| ListInterface.RemoveAt | HWs/HW3/cll_global.c:96-97 | the unlink of a node: the result is one node shorter, keeps every node before it, and shifts every node after it back by one |
| ListInterface.FirstAtLeast | HWs/HW3/cll_global.c:66-80 | the tie-break position: every key before it is smaller than the new key, and the key at it (if any) is not smaller |
| ListInterface.FirstIndexOf | HWs/HW3/cll_global.c:93-101 | the head-most match: it is inside the list exactly when the key is present, holds the key there, and no earlier node holds it |
| ListScan.ScanInsert | HWs/HW3/cll_global.c:74-77 | the insertion walk stops at a node within the list; every node it stepped onto holds a smaller key, and the stop node is last or followed by a key not smaller than the new one |
| GlobalList.InsertPoint | HWs/HW3/cll_global.c:66-80 | the head test plus the walk put the new node exactly at the tie-break position, immediately before the first node whose key is >= the new key (head included) |
| GlobalList.Insert | HWs/HW3/cll_global.c:53-84 | allocation failure returns -1 with the list unchanged; otherwise returns 0 with the key at the tie-break position, one more copy of the key in the multiset, and ascending order preserved |
| GlobalList.FindKey | HWs/HW3/cll_global.c:93-105 | the search loop stops at the first node holding the key, or runs off the end exactly when no node from the start point holds it |
| GlobalList.Delete | HWs/HW3/cll_global.c:87-109 | a present key has its head-most node unlinked, returns 0, and loses exactly one copy with order kept; an absent key returns -1 with the list unchanged |
| GlobalList.Lookup | HWs/HW3/cll_global.c:113-127 | returns 0 exactly when some node holds the key, -1 otherwise |
| GlobalList.FreshList | HWs/HW3/cll_global.c:87-127 | on a newly created list, lookup and delete return -1 for every key and the list stays empty |
| GlobalList.NewestDuplicateFirst | HWs/HW3/cll_global.c:66-80 | the node just inserted is the head-most node holding its key, so older equal keys follow it |
| GlobalList.DeleteUndoesInsert | HWs/HW3/cll_global.c:53-109 | on any list, delete right after insert of the same key returns 0 and gives back the original list |
| HohList.InsertPoint | HWs/HW3/cll_hoh.c:69-107 | position 0 exactly when the list is empty or the key is strictly below the head's key; otherwise after the head, past every smaller key, before the first key not smaller |
| HohList.SortedInsertPoint | HWs/HW3/cll_hoh.c:80-107 | on an ascending list the key sequence equals the tie-break rule's and stays ascending; a key equal to the head's goes to position 1, and every other key goes to the tie-break position |
| HohList.Insert | HWs/HW3/cll_hoh.c:56-115 | allocation failure returns -1 before any change; otherwise returns 0 with the new node spliced in at this variant's position and every other node in its old order, one more copy in the multiset, and on an ascending list the tie-break key sequence |
| HohList.CoupledSearch | HWs/HW3/cll_hoh.c:133-164 | the coupled walk stops at the first node holding the key, or at the last node when none holds it |
| HohList.Delete | HWs/HW3/cll_hoh.c:118-172 | an empty list or absent key returns -1 with no change; otherwise the head-most match is unlinked (the head link is rewritten when it is the head), 0 is returned, and exactly one copy is removed with order kept |
| HohList.Lookup | HWs/HW3/cll_hoh.c:175-205 | returns 0 exactly when some node holds the key; -1 on an empty list or when the walk reaches the last node without a match |
| HohList.FreshList | HWs/HW3/cll_hoh.c:118-183 | on a newly created list, lookup and delete return -1 for every key and the list stays empty |
| HohList.InsertIntoEmpty | HWs/HW3/cll_hoh.c:69-73 | insert into an empty list gives the one-node list and returns 0 |
| HohList.HeadTieKeepsOlderHead | HWs/HW3/cll_hoh.c:80-107 | a key equal to the head's key of an ascending list is linked in second, so the old head stays the head-most match and is what the next delete removes |
| HohList.DeleteUndoesInsert | HWs/HW3/cll_hoh.c:56-172 | on an ascending list, and on any list whose head does not hold the key, delete right after insert of the same key returns 0 and gives back the original key sequence |
| VariantComparison.InsertMultisetsAgree | HWs/HW3/cll_hoh.c:56-115 | on every list, both variants' inserts return the same code and leave the same multiset of keys |
| VariantComparison.SortedInsertsAgree | HWs/HW3/cll_hoh.c:79-107 | on an ascending list both variants' inserts give the same outcome, and it is ascending |
| VariantComparison.PlacementDiffersOnlyOnHeadTie | HWs/HW3/cll_hoh.c:79-88 | the two variants place the new node differently exactly when the head holds the new key; on an ascending list global puts it first and hand-over-hand puts it second |
| VariantComparison.UnsortedInsertsDiverge | HWs/HW3/cll_hoh.c:94-107 | on the non-ascending list 5, 3, inserting 5 gives 5, 5, 3 in the global variant and 5, 3, 5 in the hand-over-hand variant |
| VariantComparison.DeletesAgree | HWs/HW3/cll_hoh.c:118-172 | delete gives the same list and code in both variants on every list |
| VariantComparison.LookupsAgree | HWs/HW3/cll_hoh.c:175-205 | lookup gives the same code in both variants on every list |
| VariantComparison.InsertLookupDeleteRoundTrip | HWs/HW3/cll_global.c:53-127 | for a key absent from the list (ascending or not), in both variants: insert makes lookup return 0; the following delete returns 0 and restores the list; lookup then returns -1 |
| VariantComparison.GlobalExampleInserts | HWs/HW3/cll_global.c:53-84 | inserting 3, 8, 3 into a fresh global list gives 3, 3, 8, with the second 3 linked in as the head |
| VariantComparison.ExampleQueries | HWs/HW3/cll_global.c:87-127 | on 3, 3, 8 in both variants: 8 is found; deleting 3 returns 0 and leaves 3, 8, where 3 is still found; deleting 99 returns -1 and changes nothing |
| VariantComparison.HohExampleInserts | HWs/HW3/cll_hoh.c:56-115 | inserting 3, 8, 3 into a fresh hand-over-hand list gives 3, 3, 8, with the second 3 linked in after the head |
| SimpleStack.Valid | HWs/HW0/Simple_DS.c:2-5 | the index invariant: the array has STACK_SIZE (100) slots and top is -1 or the index of a slot |
| SimpleStack.Initial | HWs/HW0/Simple_DS.c:2-5 | the program starts with the index invariant holding and an empty stack (top -1) |
| SimpleStack.Push | HWs/HW0/Simple_DS.c:8-16 | the index invariant is preserved; a full stack is unchanged; otherwise top rises by one, num is in the new top slot, and every other slot is kept |
| SimpleStack.Pop | HWs/HW0/Simple_DS.c:19-28 | the index invariant is preserved; an empty stack returns -1 unchanged; otherwise it returns the top slot's value with top lowered by one and the array untouched |
| SimpleStack.PushAppends | HWs/HW0/Simple_DS.c:8-16 | as a sequence, push appends the value unless the stack is full, in which case the contents are unchanged |
| SimpleStack.PopTakesLast | HWs/HW0/Simple_DS.c:19-28 | as a sequence, pop of a non-empty stack returns the last element and drops it |
| SimpleStack.PushThenPop | HWs/HW0/Simple_DS.c:8-28 | on a non-full stack, pop after push returns the pushed value and restores top and contents |
| SimpleStack.DrainLoop | HWs/HW0/Simple_DS.c:43-45 | popping until top is -1 empties the stack and yields the contents from top to bottom |
| SimpleStack.MainRun | HWs/HW0/Simple_DS.c:30-48 | the test program pops 15 and 10, then 30, 25, 20 and 5, and ends with an empty stack |

## Left out

- All mutex operations, the hand-over-hand locking protocol, and its lock-ordering questions. The model gives only the sequential meaning of each operation. The concurrency properties cannot be expressed over immutable sequences: linearizability, deadlock freedom, and no use of a freed node.
- `list_destroy` in both variants, along with `malloc`, `free` and mutex init/destroy. These reclaim memory and have no sequential result. Allocation failure appears only as the `allocOk` input to `Insert` and `ListInterface.Create`.
- Node identity is not stored. Which node sits where among equal keys is expressed through the index of the new node (`InsertPoint`) and the index of the node delete removes (`FirstIndexOf`).
- The C `int` key width. Keys are unbounded integers. The list operations only compare keys and never do arithmetic on them, so no wrap-around can arise.
- SimpleStack.PushThenPop: restores `top` and the contents but not the whole array. The slot just above the contents keeps the pushed value, exactly as in the C code, so the prior array state is restored only below `top`.
- The stack's `printf` diagnostics. An underflowing `pop` returns -1 with no separate error flag, exactly as the code does.
- The benchmark driver (`HWs/HW3/benchmark.c`), the pipe and thread producer/consumer demos (`HWs/HW0/consumer_producer.c`, `HWs/HW1`), and the Go spin locks (`HWs/HW2`). These exist for process or thread interaction and timing and are not part of the modelled cores.
