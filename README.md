# Linked containers: a verified model

This project models the three singly linked containers of the
`linked_lists_rs` crate and proves the ordering, emptiness and ownership
behaviour they promise:

- **Queue** (`src/queue.rs`), first in, first out. It keeps an owning
  `head` pointer and a non-owning `last` pointer to the final node. `push`
  links a new node after `last`. `pop` detaches `head`, and resets `last`
  to null when the chain empties. Modelled as the class `Queue.Queue`
  over heap `Node` objects, with ghost `Contents` (front to back),
  `Nodes` and `Repr`. Its invariant ties `head` and `last` to the first
  and final node of the chain.
- **Stack** (`src/stack.rs`), last in, first out. It keeps one owning link
  to the top node. Modelled as the class `Stack.Stack`, with ghost
  `Contents` top first. `Drop` is its own loop, which unlinks the chain one
  node per iteration.
- **Persistent list** (`src/immutable_list.rs`). `push` and `tail` return
  new handles that share the receiver's chain. On the datatype
  `ImmutableList.List` they are plain functions. The reference counts that
  let the `Drop` loop free only the unshared prefix of a chain are modelled
  in `RcArena`: an arena of cells, each with its `Arc` strong count, plus a
  ghost multiset of the handles clients hold. The arena invariant `Sound`
  says every count is exact. `Push`, `Tail` and `Drop` keep it, and
  `Abstract` maps every handle to the `ImmutableList.List` it denotes.

The read-only and mutable iterators of the queue and the stack are cursors
over the node chain (`LinkedNodes.Iter`, `LinkedNodes.IterMut`). The unit
tests of the three files, and the doc-tests of `push`, `pop`, `peek` and
`peek_mut`, are replayed as client sessions in `Scenarios`; each such
session's postcondition is what the test asserts. `Scenarios` also runs the
statement that builds 3, 2, 1 in the reference-counting arena, and two
sessions of its own (`BuildShared`, `ListSharedDrop`) that exercise a shared
tail under `Drop`; those two replay no test.

The files are `options.dfy` (the `Option` type), `sequences.dfy` (sequence
reversal, shared by the stack and the persistent list), `linked_nodes.dfy`,
`queue.dfy`, `stack.dfy`, `immutable_list.dfy`, `rc_arena.dfy` and
`scenarios.dfy`.

## Model

| member | source | states |
|---|---|---|
| Queue.Queue.constructor | src/queue.rs:47-52 | a new queue is valid and empty, with `head` and `last` both null |
| Queue.Queue.Push | src/queue.rs:65-77 | the value is appended at the back; the new node is the new `last`; on an empty queue it also becomes `head`, otherwise `head` is unchanged; the invariant (`head` null iff `last` null, `last` is the final node) is kept |
| Queue.Queue.Pop | src/queue.rs:92-105 | on an empty queue: None, and the queue stays empty; otherwise the front value, the rest of the queue stays in order and the old `head` leaves the footprint; once the queue is empty, `head` and `last` are both null |
| Queue.Queue.Peek | src/queue.rs:121-123 | None on an empty queue, otherwise the front value; nothing changes |
| Queue.Queue.PeekMut | src/queue.rs:140-142 | None on an empty queue, which stays as it was; otherwise the reference shows the front value, and a write through it replaces that value and no other; the nodes and footprint are unchanged |
| Queue.Queue.Iter | src/queue.rs:244-246 | the cursor starts at `head` and will yield exactly the contents, front to back |
| Queue.Queue.Elements | src/queue.rs:236-242 | a full pass of `iter` yields the contents front to back, and the queue is unchanged |
| Queue.Queue.IterMut | src/queue.rs:298-300 | the mutable cursor starts at `head` and walks exactly the queue's nodes |
| Queue.Queue.MapInPlace | src/queue.rs:289-296 | a full pass of `iter_mut` writing `f` leaves the same nodes in the same order, holding `f` of each old value |
| Queue.Queue.Drop | src/queue.rs:146-150 | popping until None ends with an empty queue, both pointers null and no node owned |
| Queue.Queue.Run | src/queue.rs:307-334 | for any interleaving of pushes and pops, the popped values followed by what is left equal the old contents followed by every pushed value, in order: FIFO; and what is left has the length `Left` counts, so every dequeue on a nonempty queue pops one value |
| Queue.LeftStep | src/queue.rs:92-105 | one push adds a value and one pop removes one exactly when there is one, keeping the length `Left` counts |
| Queue.SessionStep | src/queue.rs:307-334 | one push or pop keeps the FIFO relation of `Run` |
| Queue.IntoIter.constructor | src/queue.rs:192-194 | `into_iter` takes the queue over with its contents |
| Queue.IntoIter.Next | src/queue.rs:159-161 | `next` is exactly `pop`: None when empty, otherwise the front value |
| Queue.IntoIter.Collect | src/queue.rs:353-365 | draining the iterator yields the queue's contents in order and leaves it empty |
| LinkedNodes.Node.constructor | src/queue.rs:29-36 | a new node holding the given value and successor; the queue's `Node::new` passes null, and the stack's literal (src/stack.rs:49-52) passes the chain taken out of the stack |
| LinkedNodes.Iter.Next | src/queue.rs:204-211 | yields the value under the cursor and moves to its successor; None once the chain is done (the stack's `Iter::next` at src/stack.rs:181-186 is the same code) |
| LinkedNodes.Collect | src/queue.rs:237-239 | running a read-only cursor to its end yields the values it had left, in order |
| LinkedNodes.IterMut.Next | src/queue.rs:256-263 | hands out the node under the cursor (null once done) and moves to its successor (the stack's version is src/stack.rs:232-237) |
| LinkedNodes.UpdateAll | src/queue.rs:289-291 | writing `f` through every slot the mutable cursor hands out leaves the chain linked as before, holding `f` of each old value in order |
| LinkedNodes.UpdateStep | src/queue.rs:289-291 | one turn of the `for x in &mut list` loop updates exactly the next node and keeps the others |
| LinkedNodes.LinkedDistinct | src/stack.rs:19-22 | a null-terminated chain never visits a node twice, so a write through one node changes no other position |
| Stack.Stack.constructor | src/stack.rs:33-35 | a new stack is valid and empty |
| Stack.Stack.Push | src/stack.rs:48-55 | the value goes on top and the old chain is the new node's successor |
| Stack.Stack.Pop | src/stack.rs:70-76 | on an empty stack: None, and it stays empty; otherwise the top value, the rest unchanged and the old top freed |
| Stack.Stack.Peek | src/stack.rs:92-95 | None on an empty stack, otherwise the top value; nothing changes |
| Stack.Stack.PeekMut | src/stack.rs:112-115 | None on an empty stack, which stays as it was; otherwise the reference shows the top value, and a write through it replaces that value and no other |
| Stack.Stack.Iter | src/stack.rs:219-222 | the cursor starts at the top and will yield exactly the contents, top to bottom |
| Stack.Stack.Elements | src/stack.rs:211-217 | a full pass of `iter` yields the contents top to bottom, and the stack is unchanged |
| Stack.Stack.IterMut | src/stack.rs:272-275 | the mutable cursor starts at the top and walks exactly the stack's nodes |
| Stack.Stack.MapInPlace | src/stack.rs:262-270 | a full pass of `iter_mut` writing `f` leaves the same nodes in order, holding `f` of each old value |
| Stack.Stack.Drop | src/stack.rs:119-126 | the loop ends, one node per iteration, with the stack empty and every old node's `next` cleared |
| Stack.Stack.PushAll | src/stack.rs:329-332 | pushing `vs` in order leaves them on top in reverse, above the old contents |
| Stack.PushedOneMore | src/stack.rs:48-55 | one more push puts the newest value on top of the reversal so far |
| Stack.IntoIter.constructor | src/stack.rs:160-162 | `into_iter` takes the stack over with its contents |
| Stack.IntoIter.Next | src/stack.rs:135-137 | `next` is exactly `pop` |
| Stack.IntoIter.Collect | src/stack.rs:327-339 | draining the iterator yields the contents top to bottom and leaves the stack empty |
| ImmutableList.New | src/immutable_list.rs:16-18 | the empty list: no elements and no head |
| ImmutableList.Push | src/immutable_list.rs:20-26 | the value in front of the receiver's elements, with the receiver itself as the successor (shared, not copied) |
| ImmutableList.Tail | src/immutable_list.rs:28-31 | the elements after the head, and the successor itself; the empty list for the empty list |
| ImmutableList.Head | src/immutable_list.rs:33-35 | None exactly for the empty list, otherwise the first element |
| ImmutableList.TailOfPush | src/immutable_list.rs:20-31 | `l.push(v).tail()` is `l` again and `l.push(v).head()` is `v`; `push` leaves the receiver alone |
| ImmutableList.TailsOfEmpty | src/immutable_list.rs:108-110 | any number of `tail` calls on the empty list give the empty list |
| ImmutableList.ElementsOfTails | src/immutable_list.rs:28-31 | `k` calls of `tail` drop exactly the first `k` elements (all of them when there are fewer) |
| ImmutableList.ElementsOfPushAll | src/immutable_list.rs:114-115 | pushing `vs` in order puts them in front of the receiver's elements, newest first |
| ImmutableList.HeadAfterTails | src/immutable_list.rs:91-111 | after pushing `vs` onto `new()`, `k` tails expose the value pushed `k`-th from last, and None once all are gone |
| ImmutableList.Iter.constructor | src/immutable_list.rs:67-70 | `iter` starts the cursor at the handle's chain |
| ImmutableList.Iter.Next | src/immutable_list.rs:58-63 | yields the head of the remaining chain and moves the cursor to its tail; None at the end, where the cursor stays on the empty list |
| ImmutableList.IterAll | src/immutable_list.rs:114-122 | a full pass of `iter` yields every element from the head to the end |
| RcArena.Clone | src/immutable_list.rs:23 | `Arc::clone` raises exactly the cloned node's count by one and changes no value or link |
| RcArena.Release | src/immutable_list.rs:39-49 | the teardown changes only counts and never a value or link |
| RcArena.ReleaseFreesOwnedRun | src/immutable_list.rs:39-49 | the teardown frees exactly the maximal run of count-1 nodes at the front, lowers the first shared node's count by one (it stays live), and touches nothing after it |
| RcArena.HandlesLive | src/immutable_list.rs:4 | with exact counts no live node links to a freed one, so every handle's whole chain is live |
| RcArena.HandOver | src/immutable_list.rs:41 | taking the handle's link moves its reference to the loop; the counts stay exact |
| RcArena.FreeStep | src/immutable_list.rs:43-44 | a successful `try_unwrap` frees the node and hands its reference on the successor to the loop; the counts stay exact and the rest of the teardown is unchanged |
| RcArena.DecrementStep | src/immutable_list.rs:45-46 | a failed `try_unwrap` drops the loop's `Arc`: only that count falls, the counts are exact, and this is where the teardown ends |
| RcArena.PushStep | src/immutable_list.rs:20-26 | a new node with count 1, linked to a clone of the receiver's link, keeps every count exact |
| RcArena.CloneStep | src/immutable_list.rs:28-31 | a new handle on the successor, with its count raised, keeps every count exact |
| RcArena.PushKeeps | src/immutable_list.rs:20-26 | `push` keeps the arena sound; the new handle denotes `ImmutableList.Push` of the receiver's list, and every old handle keeps its list |
| RcArena.TailKeeps | src/immutable_list.rs:28-31 | `tail` keeps the arena sound; the new handle denotes `ImmutableList.Tail` of the receiver's list, and every old handle keeps its list |
| RcArena.Arena.New | src/immutable_list.rs:16-18 | a handle on nothing, denoting the empty list |
| RcArena.Arena.Push | src/immutable_list.rs:20-26 | the arena after `push`, with the new handle denoting the pushed list and the other handles unchanged |
| RcArena.Arena.Tail | src/immutable_list.rs:28-31 | the arena after `tail`, with the new handle denoting the tail and the other handles unchanged |
| RcArena.Arena.TryUnwrap | src/immutable_list.rs:43-47 | succeeds exactly when the count is 1; on success the loop holds the successor and the rest of the teardown is unchanged; on failure the arena is the finished teardown |
| RcArena.Arena.Drop | src/immutable_list.rs:39-49 | the loop ends, and the arena is `Release` of the dropped handle: exact counts, every other handle still denoting its list |
| Scenarios.QueueBasics | src/queue.rs:307-334 | None from the empty queue, then 1, 2, 3, 4, 5 in insertion order across interleaved pushes and pops, then None |
| Scenarios.QueueBasicsRun | src/queue.rs:307-334 | the `basics` test as one `Run` session: the pops give 1, 2, 3, 4, 5 and a final pop gives None |
| Scenarios.BasicsCounts | src/queue.rs:307-334 | the `basics` session pushes 1 to 5 and leaves an empty queue empty |
| Scenarios.RefillAndDrain | src/queue.rs:323-333 | with 3 left, pushing 4 and 5 and draining gives 3, 4, 5 and then None |
| Scenarios.QueueRefill | src/queue.rs:99-101 | after the queue is emptied, a push starts a fresh chain that the next pop finds |
| Scenarios.QueuePushPopDoc | src/queue.rs:83-91 | the doc-tests of `push` and `pop`: after pushing 5, pop gives 5 and then None |
| Scenarios.QueuePeekDoc | src/queue.rs:111-120 | the doc-test of `peek`: after pushing 5, peek sees 5, pop gives 5, and peek then sees nothing |
| Scenarios.QueuePeekMutDoc | src/queue.rs:129-139 | the doc-test of `peek_mut`: it shows 5; multiplying by 5 through it makes pop give 25; then it shows nothing |
| Scenarios.QueuePeekEmpty | src/queue.rs:337-340 | `peek` and `peek_mut` find nothing in an empty queue |
| Scenarios.QueuePeekFront | src/queue.rs:341-350 | peek and `peek_mut` both show 1; after writing 42 through `peek_mut`, peek and pop see 42 |
| Scenarios.QueueIter | src/queue.rs:228-242 | `iter` yields 1, 2, 3 and the front is still 1 |
| Scenarios.QueueIterMut | src/queue.rs:281-296 | doubling through `iter_mut` makes the pops 2, 4, 6 |
| Scenarios.QueueIterSteps | src/queue.rs:367-379 | stepping `iter` over 1, 2, 3 gives 1, 2, 3 and then None |
| Scenarios.QueueIterMutSteps | src/queue.rs:381-393 | stepping `iter_mut` over 1, 2, 3 shows 1, 2, 3 and then nothing |
| Scenarios.QueueIntoIter | src/queue.rs:353-365 | `into_iter` yields 1, 2, 3 and then None |
| Scenarios.StackIntoIter | src/stack.rs:327-339 | `into_iter` after pushing 1, 2, 3 yields 3, 2, 1 and then None |
| Scenarios.StackPops | src/stack.rs:296-308 | pop on an empty stack is None; push 5 then pop gives 5 back and the stack is empty again |
| Scenarios.StackNewAndPush | src/stack.rs:282-294 | `peek` finds nothing in a new stack; after pushing 5 it sees 5 |
| Scenarios.StackPushPopDoc | src/stack.rs:61-69 | the doc-tests of `push` and `pop`: after pushing 5, pop gives 5 and then None |
| Scenarios.StackPeekDoc | src/stack.rs:82-91 | the doc-test of `peek`: after pushing 5, peek sees 5, pop gives 5, and peek then sees nothing |
| Scenarios.StackPeekMutDoc | src/stack.rs:100-111 | the doc-test of `peek_mut`: it shows 5; multiplying by 5 through it makes pop give 25; then it shows nothing |
| Scenarios.StackPeekEmpty | src/stack.rs:311-314 | `peek` and `peek_mut` find nothing in an empty stack |
| Scenarios.StackPeekTop | src/stack.rs:315-324 | peek and `peek_mut` both show 3; after writing 42 through `peek_mut`, peek and pop see 42 |
| Scenarios.StackIter | src/stack.rs:204-217 | `iter` yields 3, 2, 1 and the top is still 3 |
| Scenarios.StackIterMut | src/stack.rs:255-270 | doubling through `iter_mut` makes the pops 6, 4, 2 |
| Scenarios.StackIterSteps | src/stack.rs:341-352 | stepping `iter` after pushing 1, 2, 3 gives 3, 2, 1 |
| Scenarios.StackIterMutSteps | src/stack.rs:354-365 | stepping `iter_mut` after pushing 1, 2, 3 shows 3, 2, 1 |
| Scenarios.ListNewAndPush | src/immutable_list.rs:77-89 | the head of a new list is None; after pushing 5 it is 5 |
| Scenarios.ListIterSteps | src/immutable_list.rs:113-122 | stepping `iter` over `new().push(1).push(2).push(3)` gives 3, 2, 1 and then None |
| Scenarios.ListTails | src/immutable_list.rs:91-111 | heads None, 3, 2, 1, None, None along the chain of `tail` calls |
| Scenarios.PushOneTwoThree | src/immutable_list.rs:115 | the three pushes, while each intermediate handle is still held: four handles, counts 2, 2, 1 |
| Scenarios.DropShared | src/immutable_list.rs:45-46 | dropping a handle whose node another reference also holds lowers only that node's count by one |
| Scenarios.DropNull | src/immutable_list.rs:39-49 | dropping a handle on nothing changes no cell |
| Scenarios.BuildOneTwoThree | src/immutable_list.rs:115 | the statement `List::new().push(1).push(2).push(3)`: once its temporaries are dropped, newest first, one handle is left and every count is 1 |
| Scenarios.BuildShared | src/immutable_list.rs:28-31 | a second handle from `tail` raises the count of the node holding 2 to 2 and denotes 2, 1 |
| Scenarios.ListSharedDrop | src/immutable_list.rs:39-49 | dropping 3, 2, 1 while its tail is held frees only the node holding 3; the shared node loses one reference, and the tail still denotes 2, 1 |

## Left out

- `Arc` atomics and the `Send`/`Sync` thread-safety of the persistent list: reference counts are plain integers, updated sequentially.
- Rust lifetimes and borrow checking. The iterators' frames take their place: a cursor relies on its caller not relinking the chain while it runs.
- Raw-pointer and `Box` mechanics (`Box::into_raw`/`from_raw`, deallocation). Freeing a node means it leaves the owner's ghost `Repr`; in the arena, its count drops to 0.
- The 100k-element, allocation-counting and stack-overflow behaviour of the drop loops. These are runtime resource properties; the model proves that the loops terminate and what they leave.
- `#[derive(Debug)]` and the `IntoIterator` impls, which only delegate to `iter`, `iter_mut` and `into_iter`.
- `src/lib.rs` (module declarations only) and `examples/stack.rs` (a printing demo) are not part of this model.
- LinkedNodes.Node: the queue and the stack each declare a private `Node<T>` with the same two fields; the model declares it once and both use it. The stack's `next` is an `Option<Box<Node>>` and the queue's a raw pointer; both are a nullable reference here.
- Queue.Queue.PeekMut and Stack.Stack.PeekMut: the returned `&mut T` is not a value Dafny can hand out. Each method returns the value the reference shows, and takes what the caller does through it as a function (the identity when the caller only reads). While the `&mut T` lives, the borrow blocks every other access to the container, so all writes through it compose into one function `T -> T`, which is that parameter.
- LinkedNodes.IterMut.Next: it hands out the node whose `value` the caller may overwrite, rather than a `&mut T` into it.
- RcArena.Arena.Tail: `tail` clones the head's `Arc`, then drops that clone before returning. The model states only the net effect, one more reference on the successor.
- RcArena.Arena: the arena and the datatype `ImmutableList.List` are separate models. `RcArena.Abstract` connects them, and `Push`, `Tail` and `Drop` are proved to agree with the datatype through it.
- Stack.Stack.Drop: `mem::take` of each `next` is modelled as setting it to null; freeing the nodes is modelled by emptying `Repr`.
- Scenarios: the doc-tests of `new` (src/queue.rs:43-46, src/stack.rs:29-32) only construct, which the constructors' contracts cover. The doc-tests of `into_iter` (src/queue.rs:177-191, src/stack.rs:145-159) run the same session as the `into_iter` unit tests that `QueueIntoIter` and `StackIntoIter` replay.
