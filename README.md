# ll: a singly-linked list, modelled in Dafny

This project models `ll.c`, a small C library for a singly-linked list of
`void *` values. A list handle `ll_t` holds the head node `hd`, the length
`len` and a `val_teardown` callback. Each node `ll_node_t` holds a value
`val` and the link `nxt`. The operations are:

- `ll_new` and `ll_new_node` create a list and a node;
- `ll_select_n` walks to the node just before index `n`;
- `ll_insert_n`, `ll_remove_n` and `ll_get_n` work at an index, with the
  wrappers `ll_insert_first`, `ll_insert_last`, `ll_remove_first` and
  `ll_get_first`;
- `ll_remove_search` unlinks the first value a condition accepts;
- `ll_map` calls a function on every value;
- `ll_delete` tears the whole list down.

The model runs one thread at a time. Every reader-writer lock of the C code
is dropped, since in a sequential run each `LOCK` and `UNLOCK` is a no-op.

Files:

- `wrappers.dfy` defines module `Wrappers`, with the `Option` type that stands in for a pointer result that may be NULL.
- `list_spec.dfy` defines module `ListSpec`. It says what the operations do to the sequence of values, using plain sequences: `InsertAt`, `RemoveAt`, `FirstMatch` and `Fold`. Lemmas relate these definitions to each other.
- `ll.dfy` defines module `LL`. It holds the heap model: class `Node` and class `LinkedList`. Their fields are rewired in place just as the C code rewires them.
  - `LinkedList` carries four ghost fields. `Contents` is the values from head to tail. `Nodes` is the chain of nodes. `Repr` is the set of nodes the list owns. `Released` is the trace of values handed to the teardown callback.
  - `Valid()` says several things. Following `nxt` from `hd` visits `Nodes` in order, with no node twice, and then reaches null. The nodes hold `Contents`. `len == |Contents|`.
  - The mutating methods and `Map` are specified through `InsertAt`, `RemoveAt`, `FirstMatch` and `Fold` from `ListSpec`. `SelectN`, `GetN` and `Delete` are specified directly against `Nodes` and `Contents`.
- `driver.dfy` defines module `Driver`. It states the outcome of the test program at the end of `ll.c` as the postconditions of `Scenario`: every return code, the values the first print shows, and the order in which values reach the teardown callback.

Memory allocation becomes `new`. A node that `free` releases leaves `Repr`
and `Nodes`. The teardown callback `val_teardown` becomes the ghost trace
`Released`: removing or deleting appends the released values to it, in the
order of the calls. The condition of `ll_remove_search` becomes a function
parameter `cond`. The callback of `ll_map` becomes a step function
`f: (S, T) -> S` on a state that the callback owns. The traversal's result is
the state after the last call.

The C code has undefined behaviour for a few inputs. Each method's
`requires` excludes those inputs, and only those:

- `ll_remove_n` with `n == len` dereferences a NULL node. This covers `n == 0` on an empty list, which would use an unset pointer.
- `ll_remove_n(list, 1)` on an empty list dereferences a NULL predecessor.
- `ll_get_n(list, -1)` dereferences an unset pointer.
- `ll_get_n(list, 0)` on an empty list dereferences the NULL head.

It follows that `ll_remove_first` and `ll_get_first` need a non-empty list.

## Model

| member | source | states |
|---|---|---|
| `ListSpec.InsertAt` | ll.c:141-150 | contents after a splice at index `n`: one value longer, `v` at `n`, the values before `n` kept, the values from `n` on shifted up by one |
| `ListSpec.RemoveAt` | ll.c:209-216 | contents after unlinking index `n`: one value shorter, the values before `n` kept, the values after `n` shifted down by one |
| `ListSpec.RemoveUndoesInsert` | ll.c:133-162 | removing at the index just inserted at gives back the original contents |
| `ListSpec.InsertUndoesRemove` | ll.c:202-227 | re-inserting a removed value at its old index gives back the original contents |
| `ListSpec.FirstMatch` | ll.c:256-259 | the search stops at the first index whose value satisfies `cond`, or at the end when none does: no earlier value matches, and a value is found exactly when the index is inside the list |
| `ListSpec.FoldSnoc` | ll.c:326-331 | one more loop step of the traversal applies the callback once more, to the next value |
| `ListSpec.FoldRecordsInOrder` | ll.c:323-332 | a callback that records its argument sees every value exactly once, from head to tail |
| `ListSpec.FrontInsertsReverse` | ll.c:174-176 | inserting values at the front one after another leaves them in reverse order of insertion, ahead of the earlier contents |
| `LL.Node.constructor` | ll.c:72-79 | a new node holds the given value and links to nothing |
| `LL.LinkedList.Walk` | ll.c:103-117 | following `nxt` `k` times from `hd` reaches the `k`-th node, and reaches null exactly when `k >= len`: `len` counts the nodes reachable from `hd` |
| `LL.LinkedList.SpliceKeepsValid` | ll.c:141-150 | linking a fresh node in behind index `n - 1`, or in front of the head, without touching another link, leaves a well-formed list that holds the value at index `n` |
| `LL.LinkedList.UnlinkKeepsValid` | ll.c:209-216 | relinking past index `n`, or moving the head past it, without touching another link, leaves a well-formed list without that node |
| `LL.LinkedList.constructor` | ll.c:21-29 | a new list is well formed and empty: `hd` is null, `len` is 0, nothing has been released |
| `LL.LinkedList.SelectN` | ll.c:93-120 | fails for `n < 0`; succeeds for `n == 0` without walking, with no node; succeeds for `n == 1` with the head, which is null on an empty list; for `2 <= n <= len` it yields the node at index `n - 1`; fails when the walk would pass the tail |
| `LL.LinkedList.SpliceFront` | ll.c:140-146 | the new node becomes the head and links to the old head; the value is at index 0 and `len` grows by one |
| `LL.LinkedList.SpliceAfter` | ll.c:147-150 | the new node is linked in behind the node at index `n - 1`; the value lands at index `n` and `len` grows by one |
| `LL.LinkedList.InsertN` | ll.c:133-162 | for `0 <= n <= len` the contents become `InsertAt(old, n, v)` and the result is the new length `len + 1`; otherwise the result is -1 and neither the handle nor any node changes, including `n == 1` on an empty list, which the last branch turns down |
| `LL.LinkedList.InsertFirst` | ll.c:174-176 | the value is put in front of the contents; the result is the new length |
| `LL.LinkedList.InsertLast` | ll.c:188-190 | the value is appended to the contents; the result is the new length |
| `LL.LinkedList.RemoveN` | ll.c:202-227 | for `0 <= n < len` the contents become `RemoveAt(old, n)`, exactly the value at `n` is handed to the teardown once, that node leaves the footprint, and the result is `len - 1`; otherwise the result is -1 and nothing changes |
| `LL.LinkedList.RemoveFirst` | ll.c:238-240 | the head value is removed and handed to the teardown; the result is the new length |
| `LL.LinkedList.RemoveSearch` | ll.c:253-281 | only the value at the first index where `cond` holds is removed and handed to the teardown, and the result is `len - 1`; when no value matches, the result is -1 and nothing changes |
| `LL.LinkedList.GetN` | ll.c:293-300 | for `0 <= n < len` the result is the value at `n`; for any other allowed `n` it is NULL (None); the list is not changed |
| `LL.LinkedList.GetFirst` | ll.c:311-313 | the result is the head value |
| `LL.LinkedList.Map` | ll.c:323-332 | the callback is applied once to every value, from head to tail, starting from the given state; the list is not changed |
| `LL.LinkedList.Delete` | ll.c:39-61 | every value is handed to the teardown from head to tail, `len` counts down to 0 and `hd` becomes null; no node is left in the footprint |
| `Driver.SearchesStop` | ll.c:413-425 | with the condition `num_equals_3` (ll.c:373-375, `Driver.IsThree`), the driver's three searches for a 3 stop at index 1 of `[1, 3, 6, 5]`, index 0 of `[3, 1, 6, 5, 3]` and index 3 of `[1, 6, 5, 3]` |
| `Driver.InsertFronts` | ll.c:388-393 | after three front inserts the contents are `[0, 1, 2]` and the calls return 1, 2, 3 |
| `Driver.InsertBacks` | ll.c:394-397 | three appends and an insert at index 5 give `[0, 1, 2, 3, 4, 6, 5]`; the calls return 4, 5, 6, 7 |
| `Driver.RemoveByIndex` | ll.c:400-411 | removing at indices 0, 1 and 2 leaves `[1, 3, 6, 5]` and releases 0, 2, 4; removing at index 5 then fails with -1 |
| `Driver.SearchThenReinsert` | ll.c:413-418 | the search removes the first 3; a 3 is then put at each end, giving `[3, 1, 6, 5, 3]` |
| `Driver.SearchTwice` | ll.c:420-426 | two more searches remove the front 3 and then the back 3, leaving `[1, 6, 5]` |
| `Driver.Scenario` | ll.c:377-430 | the whole driver returns `1, 2, 3, 4, 5, 6, 7, 6, 5, 4, -1, 3, 4, 5, 4, 3`; the first print shows `0, 1, 2, 3, 4, 6, 5`; the teardown receives 0, 2, 4, the three 3s, and then 1, 6, 5 |

## Left out

- Locking: `LOCK`/`UNLOCK`, `pthread_rwlock_init` and `pthread_rwlock_destroy`, and the hand-over-hand locking in `ll_select_n`. The model is sequential. Concurrent callers, which the comments at ll.c:94 and ll.c:107 mention, are not modelled. Neither are the unbalanced unlocks (ll.c:143, ll.c:218), which only matter for the locks.
- `malloc` and `free` are not modelled as such. Allocation is `new`, and a freed node leaves `Repr` and `Nodes`. `ll_delete` also frees the handle itself; the model keeps the handle as an empty list instead.
- The `val_teardown` and `val_printer` fields are not stored in the handle. The teardown's effect is the `Released` trace, and `ll_new` therefore takes no argument. Setting both fields to NULL in `ll_delete` (ll.c:54-55) is not modelled.
- `ll_print` (ll.c:342-349) is `printf` around `ll_map` and is left out as I/O. The driver models only the values its first print shows.
- `ll_no_teardown` (ll.c:358-360) is left out. It does nothing.
- The bodies of the callbacks are left out. `num_teardown` negates the value it is given through its pointer, and that write is not modelled. `num_printer` prints.
- `LL.LinkedList.SelectN`: for `n == 0` the C code leaves the out-pointer unset. The model returns null there.
- `LL.LinkedList.GetN`: in C a stored NULL value cannot be told apart from failure. The model returns `Some(v)`, which keeps the two apart.
- `len` and the index `n` are C `int`s. Overflow (`n + 1` in `ll_get_n`, a list longer than `INT_MAX`) is not modelled.
- Values are compared and stored as Dafny values, not as `void *` pointers. Two pointers to equal ints are two equal values here.
- The two splice cases of `ll_insert_n` (ll.c:140-150) are the methods `SpliceFront` and `SpliceAfter`. `InsertN` calls one of them from the same `if`/`else if` the C code uses. The `len++` of ll.c:157-159 happens inside the splice method.
- `Driver.Scenario`: the teardown trace is stated group by group, not as one flat sequence. It is the concatenation `[0, 2, 4] + [3] + [3] + [3] + [1, 6, 5]`.
