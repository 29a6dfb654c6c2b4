# boson, modelled in Dafny

boson is a C++ runtime of lightweight coroutines ("routines") scheduled on a
few system threads, with Go-like channels and non-blocking socket calls.  This
project models the sequential logic underneath it, and the broadcast chat relay
shipped with it as an example, together with the Go program the relay is
measured against.

- **Index-stable containers and queues**: the free-list slot allocators
  `sparse_vector` and `linear_allocator` (with the chain they share in
  `free_chain.dfy`); `vectorized_queue`, a doubly linked FIFO inside a vector
  whose cells can be freed anywhere; the vector-backed `flat_unordered_set`;
  the bounded ring `weakrb`; the FIFOs `mpsc`, `simple_queue`, the `void*`
  queue of `simple.cc` and `simple_wfqueue`; and the invalidatable reference
  counted handle `local_ptr`.  Each is a class whose methods update its fields
  in place, specified against an abstract sequence of contents.
- **Runtime bookkeeping**: the netpoller's command queue and per-fd table and
  its event dispatch (`netpoller.h`); the per-thread scheduler of
  `internal/thread.cc` (slot registration, the 64-bit registration word,
  timers filed by date, the end-of-round decision); routine status
  transitions (`routine.h`); and the older scheduling rule of
  `src/thread.cc`.
- **Pure helpers**: the json_backbone array arithmetic, variant storage
  size and comparison, the LCRQ bit tags and `init_ring`, and
  `chrono::ceil` for integer durations.
- **The chat relays**: `full_chat_server.cc`, `chat_server.cc`,
  `chat_vs_go.cc` and the Go `chat.go`: the readers' framing of each read,
  the acceptors, the coordinator loop over a set or vector of connections,
  and the throughput reporter.

Kernel results (`recv`, `accept`, `setsockopt`, epoll rounds), the status a
routine reports after being resumed, elapsed times and random draws are
parameters of the methods that need them.  Sockets are integer fds, messages
sent are appended to an output log, and `fmt::format` texts are datatype
constructors (`Says(fd, line)`, `Joined(fd)`, ...).  A value-initialised
element (`ValueType{}`, `Data{}`) is a `zero` parameter.

## Model

| member | source | states |
|---|---|---|
| FreeChain.EntryIsEnd | src/boson/boson/memory/sparse_vector.h:26-35 | a `free_cells_` entry is -1 exactly for a cell off the chain or for the chain's last cell |
| FreeChain.PopHead | src/boson/boson/memory/sparse_vector.h:84-91 | taking the head off the chain and resetting its entry to -1 leaves a well-formed chain of the remaining free cells |
| FreeChain.PushHead | src/boson/boson/memory/sparse_vector.h:98-105 | linking an allocated cell in front of the head gives a well-formed chain that starts with it |
| FreeChain.GrowAllocated | src/boson/boson/memory/sparse_vector.h:78-82 | appending a cell with entry -1 keeps the chain unchanged |
| FreeChain.Initial | src/boson/boson/memory/sparse_vector.h:45-55 | the entries 1, 2, ..., n-1, -1 with head 0 form the chain 0 -> 1 -> ... -> n-1 |
| SparseVector.SparseVector.Empty | src/boson/boson/memory/sparse_vector.h:39 | the default vector has no cell and an empty chain |
| SparseVector.SparseVector.constructor | src/boson/boson/memory/sparse_vector.h:45-55 | `initial_size` default cells, every one free, chained in ascending order (empty chain for size 0) |
| SparseVector.SparseVector.Has | src/boson/boson/memory/sparse_vector.h:33-35 | the check holds exactly for the allocated cells, once the constructor records the chain's last cell |
| SparseVector.SparseVector.Put | src/boson/boson/memory/sparse_vector.h:61-64 | writing through `operator[]` changes that cell only and leaves the chain alone |
| SparseVector.SparseVector.Get | src/boson/boson/memory/sparse_vector.h:66-69 | reading through `operator[]` gives the cell's value; an allocated cell is required, as the source's debug check demands (a definition; `Put` states how it changes) |
| SparseVector.SparseVector.Allocate | src/boson/boson/memory/sparse_vector.h:77-93 | with an empty chain one cell is appended and the old size returned; otherwise the head is returned, the chain advances and the storage keeps its size; the cell is allocated afterwards and the vectors keep equal lengths |
| SparseVector.SparseVector.Free | src/boson/boson/memory/sparse_vector.h:98-105 | the freed cell becomes the chain's head, so the next allocation returns it (LIFO reuse) |
| SparseVector.HasAsWrittenAcceptsFreeCell | src/boson/boson/memory/sparse_vector.h:29-35 | as written, after `sparse_vector(1)` the free cell 0 passes the debug check because `last_free_cell_` is still -1 |
| SparseVector.HasAsWritten | src/boson/boson/memory/sparse_vector.h:33-35 | the debug `has` as written, comparing against `last_free_cell_` (a definition; `HasAsWrittenAcceptsFreeCell` shows it accepting a free cell) |
| SparseVector.AllocateAfterConstruction | src/boson/boson/memory/sparse_vector.h:45-93 | after construction with n cells, n allocations return 0, 1, ..., n-1 in order and the next one appends cell n |
| LinearAllocator.LinearAllocator.constructor | src/boson/boson/memory/linear_allocator.h:39-50 | `InitialSize` cells, all free, chained 0 -> 1 -> ... -> n-1 -> -1 with the head at 0 |
| LinearAllocator.LinearAllocator.Allocate | src/boson/boson/memory/linear_allocator.h:78-90 | an empty chain grows both vectors by one and returns the new last cell; otherwise the head is taken, marked -1 and storage does not grow |
| LinearAllocator.LinearAllocator.Free | src/boson/boson/memory/linear_allocator.h:95-98 | the freed cell becomes the chain's head, so the next allocation returns it |
| VectorizedQueue.AppendFreeCell | src/boson/boson/queues/vectorized_queue.h:98-101 | appending a cell whose `next` is `empty` to a vector with no free cell gives a one-cell free chain and keeps the queue invariant |
| VectorizedQueue.TakeFreeHead | src/boson/boson/queues/vectorized_queue.h:97-103 | moving the head of the free chain to the end of the queue keeps every cell in exactly one of the two chains |
| VectorizedQueue.LinkTail | src/boson/boson/queues/vectorized_queue.h:102-111 | the written cell takes the value with `previous == tail`, the old tail points to it, and the invariant holds with the value appended |
| VectorizedQueue.UnlinkLayout | src/boson/boson/queues/vectorized_queue.h:118-146 | moving any queue position to the front of the free chain keeps the two chains disjoint and complete |
| VectorizedQueue.UnlinkLinks | src/boson/boson/queues/vectorized_queue.h:121-141 | after unlinking, the remaining queue cells are linked both ways in their old order |
| VectorizedQueue.UnlinkFreeLinks | src/boson/boson/queues/vectorized_queue.h:144-146 | after unlinking, the free chain starts at the freed cell and continues with the old chain |
| VectorizedQueue.UnlinkContents | src/boson/boson/queues/vectorized_queue.h:118-143 | after unlinking, the queued values are the old ones without the freed position, in order |
| VectorizedQueue.UnlinkEnds | src/boson/boson/queues/vectorized_queue.h:121-136 | the new head and tail are the first and last remaining queue cells |
| VectorizedQueue.Unlink | src/boson/boson/queues/vectorized_queue.h:118-146 | unlinking any position keeps the whole invariant, with that position gone from the queue and its values |
| VectorizedQueue.MarkFree | src/boson/boson/queues/vectorized_queue.h:143-146 | marking the unhooked cell free (`previous == index`, `next` = old head of the chain) completes the cell changes `free` makes |
| VectorizedQueue.Unhook | src/boson/boson/queues/vectorized_queue.h:120-141 | the head, tail and middle branches join the freed cell's neighbours, and move `head` or `tail` past it |
| VectorizedQueue.VectorizedQueue.Empty | src/boson/boson/queues/vectorized_queue.h:59 | the default queue has no cell and holds nothing |
| VectorizedQueue.VectorizedQueue.constructor | src/boson/boson/queues/vectorized_queue.h:65-77 | as written: an empty queue of `initial_size - 1` free cells chained 0 -> ... -> n-2, the last with both links `empty` |
| VectorizedQueue.VectorizedQueue.Sized | src/boson/boson/queues/vectorized_queue.h:65-77 | with the loop bound corrected: `initial_size` cells, all marked free, chained in ascending order |
| VectorizedQueue.VectorizedQueue.Write | src/boson/boson/queues/vectorized_queue.h:96-113 | reuses the first free cell, or appends one when there is none, and returns its index; the value becomes the tail, and the head too when the queue was empty |
| VectorizedQueue.VectorizedQueue.Free | src/boson/boson/queues/vectorized_queue.h:118-147 | removes exactly that cell from the queue, the others keeping their order; the cell is marked free and heads the free chain |
| VectorizedQueue.VectorizedQueue.Read | src/boson/boson/queues/vectorized_queue.h:152-160 | false and no change on an empty queue; otherwise the oldest value is returned and removed (FIFO) |
| VectorizedQueue.HandoutsOfRange | src/boson/boson/queues/vectorized_queue.h:96-103 | from a fresh chain 0, ..., m-1 writes hand out 0, 1, 2, ... in ascending order, extending past the end by appending |
| VectorizedQueue.HandoutsOfChain | src/boson/boson/queues/vectorized_queue.h:96-103 | as many writes as there are free cells hand out exactly the free chain, in chain order |
| VectorizedQueue.WriteMany | src/boson/boson/queues/vectorized_queue.h:96-113 | a run of writes hands out the free cells in chain order and then new cells, and appends them to the queue |
| VectorizedQueue.FreeMany | src/boson/boson/queues/vectorized_queue.h:118-147 | freeing cells one after the other stacks them on the free chain in reverse order |
| VectorizedQueue.ReuseOrder | src/boson/test/queues_vectorized_queue.cc:9-42 | n writes on a queue built with n-1 return 0 .. n-1; after freeing them in any order, n writes return them in the reverse of that order |
| FlatUnorderedSet.FirstIndex | src/boson/boson/memory/flat_unordered_set.h:46 | the position `std::find` stops at: the first one holding the value, or the end when it is absent |
| FlatUnorderedSet.AppendDistinct | src/boson/boson/memory/flat_unordered_set.h:48-51 | appending an absent value keeps the values free of repetitions |
| FlatUnorderedSet.RemoveDistinct | src/boson/boson/memory/flat_unordered_set.h:60 | erasing one position of values without repetitions removes that value entirely and keeps every other one |
| FlatUnorderedSet.FlatUnorderedSet.Empty | src/boson/boson/memory/flat_unordered_set.h:24 | the default set holds no value |
| FlatUnorderedSet.FlatUnorderedSet.constructor | src/boson/boson/memory/flat_unordered_set.h:25-27 | `size` copies of the default value |
| FlatUnorderedSet.FlatUnorderedSet.Find | src/boson/boson/memory/flat_unordered_set.h:46 | linear search from the front: the first position holding the value, or the size when absent |
| FlatUnorderedSet.FlatUnorderedSet.Insert | src/boson/boson/memory/flat_unordered_set.h:45-54 | an absent value is appended and `inserted` is true; a present value leaves the contents unchanged and `inserted` is false; the position, modelled as an index (see Left out), is where `std::find` stopped before the append, the value's index in both cases |
| FlatUnorderedSet.FlatUnorderedSet.Erase | src/boson/boson/memory/flat_unordered_set.h:56-62 | 0 and no change when absent; otherwise 1, and the first occurrence is removed with the others keeping their order |
| FlatUnorderedSet.FlatUnorderedSet.Size | src/boson/boson/memory/flat_unordered_set.h:64-66 | the number of stored values, which without repetitions is the number of distinct values |
| FlatUnorderedSet.InsertAll | src/boson/test/memory_flat_unordered_set.cc:29-42 | inserting a list of values into an empty set leaves exactly the distinct inputs, each once, and their number as size |
| WeakRB.RingPush | src/boson/boson/queues/weakrb.h:63-64 | writing slot `back % size` of a ring that is not full extends the held values by one at the back |
| WeakRB.RingPop | src/boson/boson/queues/weakrb.h:75-76 | reading slot `front % size` yields the oldest value and advancing `front` drops it |
| WeakRB.WeakRB.constructor | src/boson/boson/queues/weakrb.h:36-48 | `capacity` default slots and all four counters at zero: an empty ring |
| WeakRB.WeakRB.Push | src/boson/boson/queues/weakrb.h:56-66 | false and no change to the contents exactly when `size` values are waiting; otherwise the value is appended and `back` goes up by one; the cached front never passes the real one |
| WeakRB.WeakRB.Pop | src/boson/boson/queues/weakrb.h:68-78 | false with `element` unchanged exactly when empty; otherwise the oldest value is returned and `front` goes up by one; the cached back never passes the real one |
| WeakRB.Relay | src/boson/test/queues_weakrb.cc:28-52 | alternating pushes and pops through a ring of at least one slot return every value in push order |
| Mpsc.Mpsc.constructor | src/boson/boson/queues/mpsc.h:53-59 | a single zeroed sentinel node with no successor, both ends on it: the queue is empty |
| Mpsc.Mpsc.Write | src/boson/boson/queues/mpsc.h:69-76 | a fresh node holding the value is linked after the newest one, so the value is appended at the back |
| Mpsc.Mpsc.Read | src/boson/boson/queues/mpsc.h:78-89 | false with `output` unchanged on an empty queue; otherwise the value after the sentinel is returned and its node becomes the new sentinel |
| Mpsc.Mpsc.Drain | src/boson/boson/queues/mpsc.h:61-67 | the destructor's loop reads until empty and yields every queued value in order |
| Mpsc.Transfer | src/boson/test/test_mpsc.cc:18-30 | writing values into a fresh queue and reading until the queue reports empty returns them in writing order |
| SimpleQueue.SimpleQueue.constructor | src/boson/boson/queues/simple.h:33 | a new queue is empty |
| SimpleQueue.SimpleQueue.Write | src/boson/boson/queues/simple.h:39-43 | the value is appended at the back and nothing else changes |
| SimpleQueue.SimpleQueue.Read | src/boson/boson/queues/simple.h:45-53 | false with `value` untouched on an empty queue; otherwise the front value is returned and removed |
| SimpleQueue.RoundTrip | src/boson/boson/queues/simple.h:39-53 | values written to a fresh queue are read back in writing order, then a read reports empty |
| SimpleVoidQueue.SimpleVoidQueue.constructor | src/boson/src/queues/simple.cc:6-7 | a new queue is empty whatever the processor count |
| SimpleVoidQueue.SimpleVoidQueue.Write | src/boson/src/queues/simple.cc:9-12 | the pointer is appended at the back; the processor id plays no part |
| SimpleVoidQueue.SimpleVoidQueue.Read | src/boson/src/queues/simple.cc:14-22 | null on an empty queue; otherwise the front pointer, which is removed |
| SimpleVoidQueue.RoundTrip | src/boson/src/queues/simple.cc:9-22 | pointers written to a fresh queue come back in writing order, then a read yields null |
| SimpleVoidQueue.NullIsAmbiguous | src/boson/src/queues/simple.cc:14-22 | a written null pointer reads back exactly as an empty queue does |
| SimpleWfQueue.SimpleWfQueue.constructor | src/boson/src/queues/wfqueue.cc:6-7 | a new queue is empty whatever the processor count |
| SimpleWfQueue.SimpleWfQueue.Push | src/boson/src/queues/wfqueue.cc:9-12 | the pointer is appended at the back; the processor id plays no part |
| SimpleWfQueue.SimpleWfQueue.Pop | src/boson/src/queues/wfqueue.cc:14-22 | null on an empty queue; otherwise the front pointer, which is removed |
| SimpleWfQueue.RoundTrip | src/boson/src/queues/wfqueue.cc:9-22 | pointers pushed by any processors come back in pushing order, then a pop yields null |
| LocalPtr.LocalPtr.Empty | src/boson/boson/memory/local_ptr.h:39-40 | the default handle has no record and is false |
| LocalPtr.LocalPtr.constructor | src/boson/boson/memory/local_ptr.h:41-45 | a fresh record holding the value with a count of one |
| LocalPtr.LocalPtr.Copy | src/boson/boson/memory/local_ptr.h:47-50 | the copy shares the record, whose count goes up by one; its value and released mark are unchanged |
| LocalPtr.LocalPtr.Move | src/boson/boson/memory/local_ptr.h:52-54 | the record changes hands and the source is left empty; the count is unchanged |
| LocalPtr.LocalPtr.Decrement | src/boson/boson/memory/local_ptr.h:25-35 | the count drops by one; the value and the record are deleted exactly when it reaches zero |
| LocalPtr.LocalPtr.CopyAssign | src/boson/boson/memory/local_ptr.h:56-62 | as written: this handle's share is released, then the other's record is shared and counted |
| LocalPtr.LocalPtr.CopyAssignGuarded | src/boson/boson/memory/local_ptr.h:56-62 | as `CopyAssign`, except that assigning a handle to itself changes nothing |
| LocalPtr.LocalPtr.MoveAssign | src/boson/boson/memory/local_ptr.h:64-69 | this handle's share is released (deleting the value when it was the last), then the record changes hands and the source is left empty; moving a handle into itself leaves it empty |
| LocalPtr.LocalPtr.AssignNull | src/boson/boson/memory/local_ptr.h:71-75 | one share is released and the handle is left empty |
| LocalPtr.LocalPtr.Reset | src/boson/boson/memory/local_ptr.h:81-87 | the record's value is replaced for every handle sharing it; a handle without a record is unchanged |
| LocalPtr.LocalPtr.InvalidateAll | src/boson/boson/memory/local_ptr.h:89-91 | the record's value becomes null, so every handle sharing it is false |
| LocalPtr.LocalPtr.IsSet | src/boson/boson/memory/local_ptr.h:93-95 | there is a record and its value pointer is not null (a definition; `InvalidateReachesCopies` and the scenarios state its uses) |
| LocalPtr.CopiesShareRecord | src/boson/boson/memory/local_ptr.h:41-79 | a handle and its copy share one record counting two; destroying both deletes it |
| LocalPtr.InvalidateReachesCopies | src/boson/boson/memory/local_ptr.h:89-95 | invalidating through one handle makes its copy false too |
| LocalPtr.MoveKeepsCount | src/boson/boson/memory/local_ptr.h:52-54 | moving a handle empties the source and keeps the count |
| LocalPtr.SelfCopyAssign | src/boson/boson/memory/local_ptr.h:56-62 | as written, self copy-assignment of the only handle on a record deletes the value and leaves the handle empty |
| LocalPtr.SelfCopyAssignGuarded | src/boson/boson/memory/local_ptr.h:56-62 | with the guard, self copy-assignment keeps the value and the count |
| LocalPtr.SelfMoveAssign | src/boson/boson/memory/local_ptr.h:64-69 | self move-assignment of one of two handles on a record leaves that handle empty and the record counting one, still alive for the other |
| Netpoller.ApplyCommand | src/boson/boson/internal/netpoller.h:196-229 | the table's length after one command is the one `new_fd` may grow it to, and every queued event stays about an fd of the table |
| Netpoller.CommandEffect | src/boson/boson/internal/netpoller.h:197-228 | `new_fd` grows the table to hold the fd and disables both sides; `update_*` enables one side and stores the data; `remove_*` disables one side and keeps its data; `close_fd` queues `-EBADF` on a side only when that side is enabled |
| Netpoller.ApplyAll | src/boson/boson/internal/netpoller.h:194-230 | applying the pending commands never shrinks the table and keeps every queued event about a known fd |
| Netpoller.ApplyAppend | src/boson/boson/internal/netpoller.h:194-230 | commands are applied in queue order: two batches one after the other act as their concatenation |
| Netpoller.DispatchFilters | src/boson/boson/internal/netpoller.h:233-243 | the dispatch loop is the order-preserving filter of the events: as many handler calls as events whose side is enabled, all of the side dispatched; the call of an enabled event, carrying that side's stored data and the event's status, sits right after the calls of the enabled events before it; and no call at all when every side is disabled |
| Netpoller.DispatchKinds | src/boson/boson/internal/netpoller.h:233-243 | at most one call per event, all of the side dispatched, none when every side is disabled, and one per event in order when every side is enabled |
| Netpoller.DispatchPositions | src/boson/boson/internal/netpoller.h:233-243 | as many calls as enabled events, and each enabled event's call at the position counting the enabled events before it |
| Netpoller.DispatchCovers | src/boson/boson/internal/netpoller.h:233-243 | every call comes from an enabled event: the one with as many enabled events before it as there are calls before the call, with that side's stored data and the event's status |
| Netpoller.DispatchAppend | src/boson/boson/internal/netpoller.h:233-243 | dispatching two event lists one after the other makes exactly the calls of their concatenation |
| Netpoller.DispatchOne | src/boson/boson/internal/netpoller.h:233-243 | a single event makes one call with its side's stored data and its status when its side is enabled, and none otherwise |
| Netpoller.EnabledCount | src/boson/boson/internal/netpoller.h:233-241 | the number of events whose side is enabled, the events the dispatch loop's test lets through (a definition; `DispatchPositions` states its use) |
| Netpoller.Dispatch | src/boson/boson/internal/netpoller.h:233-243 | the handler calls of the dispatch loops for one event list (a definition; `DispatchFilters` states what they are) |
| Netpoller.Step | src/boson/boson/internal/netpoller.h:190-246 | one iteration queues the round's events, applies every pending command before dispatching, hands the enabled reads then writes to the handler, empties both lists and ends with the round callback |
| Netpoller.Executed | src/boson/boson/internal/netpoller.h:186-259 | the number of rounds `loop` runs, never more than the rounds the platform supplies: up to the budget or the first early stop |
| Netpoller.Run | src/boson/boson/internal/netpoller.h:186-260 | the state after running rounds one after the other as `Step` says (a definition; `Loop` is proved against it and `RunStep` unfolds it) |
| Netpoller.EndOfBudget | src/boson/boson/internal/netpoller.h:188-259 | with a non-negative budget and no early stop, `loop` runs `nb_iter` rounds and ends on `max_iter_reached` |
| Netpoller.EndOfStop | src/boson/boson/internal/netpoller.h:248-253 | the first round that ends on `timed_out` or `error_occured` is the last one run, and `loop` returns that reason |
| Netpoller.Netpoller.constructor | src/boson/boson/internal/netpoller.h:78 | an empty table, no pending command and no queued event |
| Netpoller.Netpoller.Read | src/boson/boson/internal/netpoller.h:80-82 | a read event is appended; nothing else changes |
| Netpoller.Netpoller.Write | src/boson/boson/internal/netpoller.h:84-86 | a write event is appended; nothing else changes |
| Netpoller.Netpoller.Closed | src/boson/boson/internal/netpoller.h:88-91 | `-EBADF` is queued on both the read and the write side, enabled or not |
| Netpoller.Netpoller.SignalNewFd | src/boson/boson/internal/netpoller.h:102-105 | a `new_fd` command is queued with empty data |
| Netpoller.Netpoller.SignalFdClosed | src/boson/boson/internal/netpoller.h:112-116 | a `close_fd` command is queued with empty data |
| Netpoller.Netpoller.RegisterRead | src/boson/boson/internal/netpoller.h:123-126 | for a non-negative fd, an `update_read` command carrying the data is queued |
| Netpoller.Netpoller.RegisterWrite | src/boson/boson/internal/netpoller.h:133-136 | for a non-negative fd, an `update_write` command carrying the data is queued |
| Netpoller.Netpoller.UnregisterRead | src/boson/boson/internal/netpoller.h:143-146 | for a non-negative fd, a `remove_read` command is queued |
| Netpoller.Netpoller.UnregisterWrite | src/boson/boson/internal/netpoller.h:153-156 | for a non-negative fd, a `remove_write` command is queued |
| Netpoller.Netpoller.LocalUnregisterRead | src/boson/boson/internal/netpoller.h:163-167 | for an fd in the table, queues `remove_read` and returns the read data stored now; the table is not touched yet |
| Netpoller.Netpoller.LocalUnregisterWrite | src/boson/boson/internal/netpoller.h:174-178 | the write-side counterpart of `LocalUnregisterRead` |
| Netpoller.Netpoller.Execute | src/boson/boson/internal/netpoller.h:196-229 | one case of the command switch changes the table and the event lists as `ApplyCommand` says |
| Netpoller.Netpoller.ApplyPending | src/boson/boson/internal/netpoller.h:194-230 | every pending command is unqueued and applied, oldest first, leaving none pending |
| Netpoller.Netpoller.DispatchReads | src/boson/boson/internal/netpoller.h:233-238 | the handler receives exactly the enabled read events with their stored data, and the read list is emptied |
| Netpoller.Netpoller.DispatchWrites | src/boson/boson/internal/netpoller.h:239-244 | the handler receives exactly the enabled write events with their stored data, and the write list is emptied |
| Netpoller.Netpoller.Report | src/boson/boson/internal/netpoller.h:80-91 | the read and write lists become the platform's events for the round, and the table and pending commands are unchanged |
| Netpoller.ReadsOf | src/boson/boson/internal/netpoller.h:80-91 | the read events a platform round queues: readiness reports in order, and `-EBADF` for a closed fd (a definition; `Report` is proved against it) |
| Netpoller.WritesOf | src/boson/boson/internal/netpoller.h:80-91 | the write events a platform round queues: readiness reports in order, and `-EBADF` for a closed fd (a definition; `Report` is proved against it) |
| Netpoller.Netpoller.RunOnce | src/boson/boson/internal/netpoller.h:190-246 | one iteration moves the state as `Step` does and yields the round's end reason |
| Netpoller.Netpoller.Loop | src/boson/boson/internal/netpoller.h:186-260 | the new state is that of running the `Executed` rounds one after another as `Step` says, and the reason returned is the first early stop or `max_iter_reached` |
| Netpoller.RunStep | src/boson/boson/internal/netpoller.h:188-257 | running a non-empty list of rounds is running its first round, then the rest |
| Netpoller.NotDoneYet | src/boson/boson/internal/netpoller.h:188 | while the budget allows another iteration and no round stopped early, rounds remain to run |
| Routine.AfterTimeout | src/boson/boson/internal/routine.h:290-295 | `wait_events` becomes `yielding`; every other status becomes `timed_out` |
| Routine.AfterTimeoutCases | src/boson/boson/internal/routine.h:290-295 | a time-out is reported exactly when the routine was not waiting on several events |
| Routine.Routine.constructor | src/boson/boson/internal/routine.h:190-206 | a new routine has both statuses `is_new` and keeps its id |
| Routine.Routine.ExpectedEventHappened | src/boson/boson/internal/routine.h:286-288 | the status becomes `yielding` whatever it was; the previous status and id are unchanged |
| Routine.Routine.TimedOut | src/boson/boson/internal/routine.h:290-295 | the status moves as `AfterTimeout` says; nothing else changes |
| Routine.Routine.PreviousStatusIsIoBlock | src/boson/boson/internal/routine.h:269-272 | whether the status before the last change was a read or write wait (a definition; `NewRoutineTimesOut` states it for a fresh routine) |
| Routine.NewRoutineTimesOut | src/boson/boson/internal/routine.h:269-295 | a fresh routine is not blocked on I/O; a timer marks it timed out and a later event still makes it runnable |
| Routine.EventsWaitTimesOut | src/boson/boson/internal/routine.h:290-292 | a routine waiting on several events is made runnable, not timed out, by a timer |
| SchedulerThread.UnpackPack | src/boson/src/internal/thread.cc:167-176 | a word packed from a thread id and a slot index that each fit in 32 bits gives both back through the two masks |
| SchedulerThread.Pack | src/boson/src/internal/thread.cc:175-176 | the word registered with the loop: the thread id in the high 32 bits, or-ed with the slot index (a definition; `UnpackPack`, `PackUnpack` and `WideIndexSpills` state what it keeps) |
| SchedulerThread.ThreadOf | src/boson/src/internal/thread.cc:168-170 | the high half of a word, masked (a definition; see `HalvesFit` and `UnpackPack`) |
| SchedulerThread.SlotOf | src/boson/src/internal/thread.cc:170-171 | the low half of a word, masked (a definition; see `HalvesFit` and `UnpackPack`) |
| SchedulerThread.HalvesFit | src/boson/src/internal/thread.cc:168-170 | both masked halves of any word fit in 32 bits |
| SchedulerThread.PackUnpack | src/boson/src/internal/thread.cc:168-176 | every 64-bit word is the packing of its two halves |
| SchedulerThread.WideIndexSpills | src/boson/src/internal/thread.cc:175-176 | a slot index of 2^32 or more spills into the thread id half: for an even thread id the word read back names another thread and the registration is not reused; for an odd id it names slot 0 of this same thread, which `Reusable` then wrongly reuses |
| SchedulerThread.Reusable | src/boson/src/internal/thread.cc:166-170 | an existing registration is reused exactly when the event loop holds a word whose high half is this thread's id, and then its low half names the slot |
| SchedulerThread.LowerBound | src/boson/src/internal/thread.cc:137 | the ordered map's search: the first entry whose date is not before the given one |
| SchedulerThread.IdlePrefix | src/boson/src/internal/thread.cc:373-380 | the length of the leading run of timer sets, in date order, with no active routine |
| SchedulerThread.FileEffect | src/boson/src/internal/thread.cc:134-141 | filing a slot under a date keeps the dates in order, gives that date's set (created empty if missing) one more active routine and the slot at its end, and leaves every other date's set alone |
| SchedulerThread.File | src/boson/src/internal/thread.cc:134-141 | the timer map after filing a slot under a date (a definition; `FileEffect` states what it does) |
| SchedulerThread.Bump | src/boson/src/internal/thread.cc:134-141 | the date's timer set after one more registration: created with one active routine if missing, otherwise one more active routine and the slot at its end (a definition; `FiledBump` and `FileEffect` state it) |
| SchedulerThread.ReleasedFiled | src/boson/src/internal/thread.cc:373-380 | the slots the cleanup frees are exactly those filed in the leading idle sets |
| SchedulerThread.Released | src/boson/src/internal/thread.cc:373-380 | the free list after releasing timer sets front to back (a definition; `ReleasedFiled` and `FreeInOrder` state what it holds) |
| SchedulerThread.FreeInOrder | src/boson/src/internal/thread.cc:376-377 | freeing a set's slots one after another pushes them on the free list in reverse order, and the other filed slots stay allocated |
| SchedulerThread.Decide | src/boson/src/internal/thread.cc:382-418 | another round runs at once exactly when routines are scheduled or commands are pending; a finishing thread with no routine and no pending command becomes finished; idleness is reported exactly when nothing is left or pending and the thread is not finishing |
| SchedulerThread.RoutineIds.NewRoutineId | src/boson/src/internal/thread.cc:30-32 | returns the counter and increments it |
| SchedulerThread.TwoRoutineIds | src/boson/src/internal/thread.cc:30-32 | two successive ids are consecutive, hence distinct |
| SchedulerThread.Thread.constructor | src/boson/boson/internal/thread.h:134-196 | idle, no timer set, no suspended routine, an empty slot vector and no shared buffer |
| SchedulerThread.Thread.Occupy | src/boson/src/internal/thread.cc:144-145 | a freshly allocated slot holds the routine slot, and the other cells are unchanged |
| SchedulerThread.Thread.Reattach | src/boson/src/internal/thread.cc:170-171 | the reused cell now holds the routine slot and stays allocated |
| SchedulerThread.Thread.RegisterTimer | src/boson/src/internal/thread.cc:134-141 | allocates one slot holding the routine slot and files it as `FileEffect` says; the suspended count is unchanged |
| SchedulerThread.Thread.RegisterSemaphoreWait | src/boson/src/internal/thread.cc:143-148 | returns a freshly allocated slot holding the routine slot and counts one more suspended routine |
| SchedulerThread.Thread.RegisterIo | src/boson/src/internal/thread.cc:150-180 | when the loop's word names this thread, its slot is overwritten and nothing is registered; otherwise a fresh slot is allocated and the packed word registered; either way one more suspended routine and -1 returned |
| SchedulerThread.Thread.CleanupTimers | src/boson/src/internal/thread.cc:372-380 | exactly the leading run of idle timer sets is erased and their slots return to the free list; later sets stay |
| SchedulerThread.Thread.ReleaseFirst | src/boson/src/internal/thread.cc:376-379 | the earliest set's slots are freed in order and the set is erased |
| SchedulerThread.Thread.EndRound | src/boson/src/internal/thread.cc:382-418 | applies `Decide` to the thread's counters and status and returns whether another round runs at once |
| SchedulerThread.Thread.GetSharedBuffer | src/boson/src/internal/thread.cc:510-517 | the buffer already made for that size, or a new one of that size that later calls get back |
| SchedulerThread.SharedBuffers | src/boson/test/shared_buffer.cc:19-38 | asking twice for one size gives the same buffer, and another size gives another buffer |
| SchedulerThread.RegisterTwice | src/boson/src/internal/thread.cc:164-179 | a first read registration uses slot 0 and registers the packed word; a second with that word reuses the slot, so two routines are suspended on one slot |
| SchedulerThread.TimersInDateOrder | src/boson/src/internal/thread.cc:134-141 | timers at two dates are kept in date order, and cleanup while every set is active frees nothing |
| SchedulerThread.ThreeTimers | src/boson/src/internal/thread.cc:134-141 | two registrations at one date share one set in registration order; an earlier date gets its own entry in front; no entry starts idle |
| Lcrq.HzdptrThreshold | src/boson/boson/queues/lcrq.h:21-23 | twice the processor count, so never below it |
| Lcrq.HzdptrHtblSize | src/boson/boson/queues/lcrq.h:24-26 | `4 * nprocs * nptrs`, never below the threshold when there is a hazard pointer |
| Lcrq.NodeIndex | src/boson/boson/queues/lcrq.h:90-92 | the result has bit 63 clear |
| Lcrq.SetUnsafe | src/boson/boson/queues/lcrq.h:94-96 | the result has bit 63 set |
| Lcrq.NodeUnsafe | src/boson/boson/queues/lcrq.h:98-100 | the result is 0 or bit 63 alone |
| Lcrq.TailIndex | src/boson/boson/queues/lcrq.h:102-104 | the result has bit 63 clear |
| Lcrq.IsEmpty | src/boson/boson/queues/lcrq.h:86-88 | `is_empty`: the value is the all-ones empty marker (a definition; see `EmptyIsMarked`) |
| Lcrq.CrqIsClosed | src/boson/boson/queues/lcrq.h:106-108 | `crq_is_closed` (a definition; `ClosedIsTopBit` states that it tests bit 63) |
| Lcrq.IndexSurvivesUnsafe | src/boson/boson/queues/lcrq.h:90-96 | `node_index(set_unsafe(i)) == node_index(i)` |
| Lcrq.SetUnsafeIsUnsafe | src/boson/boson/queues/lcrq.h:94-100 | a marked index reads as unsafe |
| Lcrq.UnsafeIsTopBit | src/boson/boson/queues/lcrq.h:98-100 | `node_unsafe(i)` is non-zero exactly when bit 63 of i is set |
| Lcrq.IndexIsSafe | src/boson/boson/queues/lcrq.h:90-100 | the index part of a word never reads as unsafe |
| Lcrq.IndexAndMark | src/boson/boson/queues/lcrq.h:90-100 | index and mark together give back the word |
| Lcrq.SmallIndexUnchanged | src/boson/boson/queues/lcrq.h:90-92 | an index below 2^63 is its own `node_index` |
| Lcrq.ClosedIsTopBit | src/boson/boson/queues/lcrq.h:106-108 | `crq_is_closed(t)` holds exactly when bit 63 of t is set |
| Lcrq.ClosingKeepsTail | src/boson/boson/queues/lcrq.h:102-108 | setting bit 63 closes the ring and keeps `tail_index` |
| Lcrq.EmptyIsMarked | src/boson/boson/queues/lcrq.h:86-108 | the empty value (all ones) satisfies `is_empty`, reads as unsafe and as closed |
| Lcrq.RingQueue.InitRing | src/boson/boson/queues/lcrq.h:76-84 | every cell holds the empty value and its own index, `head == tail == 0` and `next` is null |
| Lcrq.FreshRing | src/boson/boson/queues/lcrq.h:76-108 | after `init_ring` any cell reads as empty with its own index as round, and the ring is open |
| JsonBackbone.MaxValueIsMax | 3rdparty/json_backbone/json_backbone.hpp:96-104 | the result is at least the start value and every element from the index on, and is one of them |
| JsonBackbone.MaxValueEmpty | 3rdparty/json_backbone/json_backbone.hpp:96-100 | for an empty array the start value `lowest()` comes back |
| JsonBackbone.FindFirstIsFirst | 3rdparty/json_backbone/json_backbone.hpp:106-112 | the result is N or a position holding the value, and no earlier position from the start index holds it |
| JsonBackbone.FindFirstAbsent | 3rdparty/json_backbone/json_backbone.hpp:106-112 | `find_first` answers N exactly when the value is absent |
| JsonBackbone.FindLastIsLast | 3rdparty/json_backbone/json_backbone.hpp:114-120 | the result is N or a position holding the value, and no later position holds it |
| JsonBackbone.FindLastAbsent | 3rdparty/json_backbone/json_backbone.hpp:114-120 | `find_last` answers N exactly when the value is absent |
| JsonBackbone.FirstIsLastWhenUnique | 3rdparty/json_backbone/json_backbone.hpp:106-120 | with exactly one occurrence, `find_first` and `find_last` agree |
| JsonBackbone.AllEqualsMeansAll | 3rdparty/json_backbone/json_backbone.hpp:122-128 | `all_equals` holds exactly when every element from the index on equals the value (so for an empty array) |
| JsonBackbone.MemoryFootprint | 3rdparty/json_backbone/json_backbone.hpp:61-84 | `sizeof(T)` for a small non-recursive alternative, `sizeof(void*)` otherwise |
| JsonBackbone.IsSmall | 3rdparty/json_backbone/json_backbone.hpp:62-68 | `is_small_type_impl`: never for a recursive alternative, otherwise the program's specialisation or `sizeof(T) <= sizeof(T*)` (a definition; `MemoryFootprint` states its use) |
| JsonBackbone.MinMemorySize | 3rdparty/json_backbone/json_backbone.hpp:396-397 | `min_memory_size`, the largest footprint (a definition; `SmallAlternativesInPlace` states that every small alternative fits) |
| JsonBackbone.StoreOnStack | 3rdparty/json_backbone/json_backbone.hpp:88-89 | `store_on_stack`: small and within the reserved storage (a definition; `SmallAlternativesInPlace` states that it holds for every small alternative) |
| JsonBackbone.MemorySizeIsLeastMultiple | 3rdparty/json_backbone/json_backbone.hpp:396-402 | `memory_size` is the least multiple of the pointer size that is at least the largest footprint |
| JsonBackbone.SmallAlternativesInPlace | 3rdparty/json_backbone/json_backbone.hpp:87-89 | the reserved storage holds every footprint, so every small alternative is stored in place |
| JsonBackbone.EqualsIsIdentity | 3rdparty/json_backbone/json_backbone.hpp:884-922 | with alternatives compared by equality of values, `==` is equality of alternative and value, and `!=` its negation |
| JsonBackbone.EqualsIsEquivalence | 3rdparty/json_backbone/json_backbone.hpp:884-922 | when every alternative's own `==` is an equivalence, so is the variant's; it never relates different alternatives, and `!=` is its negation |
| JsonBackbone.LessIsStrictOrder | 3rdparty/json_backbone/json_backbone.hpp:936-944 | ordering by alternative index first and payload second is a strict order when each payload order is |
| JsonBackbone.LessIsTotal | 3rdparty/json_backbone/json_backbone.hpp:936-944 | two variants are ordered one way or the other, or equal by `==`, when for each alternative two values are ordered or equal |
| JsonBackbone.GetOr | 3rdparty/json_backbone/json_backbone.hpp:1310-1316 | the held value when the view is not empty and holds that alternative, the default otherwise |
| JsonBackbone.GetOrStored | 3rdparty/json_backbone/json_backbone.hpp:1310-1316 | reading back what was stored gives it, whatever the default |
| JsonBackbone.MaxValue | 3rdparty/json_backbone/json_backbone.hpp:96-104 | `max_value` (a definition; `MaxValueIsMax` states what it returns) |
| JsonBackbone.FindFirst | 3rdparty/json_backbone/json_backbone.hpp:106-112 | `find_first` (a definition; `FindFirstIsFirst` and `FindFirstAbsent` state what it returns) |
| JsonBackbone.FindLast | 3rdparty/json_backbone/json_backbone.hpp:114-120 | `find_last` (a definition; `FindLastIsLast` and `FindLastAbsent` state what it returns) |
| JsonBackbone.AllEquals | 3rdparty/json_backbone/json_backbone.hpp:122-128 | `all_equals` (a definition; `AllEqualsMeansAll` states what it returns) |
| JsonBackbone.MemorySize | 3rdparty/json_backbone/json_backbone.hpp:396-402 | `memory_size` (a definition; `MemorySizeIsLeastMultiple` states what it returns) |
| JsonBackbone.Equals | 3rdparty/json_backbone/json_backbone.hpp:896-903 | `operator==` with each alternative's own `==` as a parameter (a definition; `EqualsIsEquivalence` and `EqualsIsIdentity` state what it is) |
| JsonBackbone.NotEquals | 3rdparty/json_backbone/json_backbone.hpp:919-922 | `operator!=`, the negation of `==` (a definition; see `EqualsIsEquivalence`) |
| JsonBackbone.Less | 3rdparty/json_backbone/json_backbone.hpp:936-944 | `operator<` with each alternative's own `<` as a parameter (a definition; `LessIsStrictOrder` and `LessIsTotal` state what it is) |
| Chrono.TruncDiv | src/boson/boson/std/experimental/chrono.h:20 | C++ integer division, truncated toward zero: `q*b <= a < q*b + b` for a non-negative dividend and `q*b - b < a <= q*b` for a negative one |
| Chrono.DurationCast | src/boson/boson/std/experimental/chrono.h:20 | `duration_cast<To>(d)`: the tick count scaled by the unit ratio, truncated toward zero (a definition; `TruncDiv` states the truncation) |
| Chrono.Ceil | src/boson/boson/std/experimental/chrono.h:18-23 | `ceil<To>(d)`: the truncated cast, plus one tick when it is below d (a definition; `CeilIsAbove`, `CeilIsLeast` and `CeilIsMinimal` state that it is the least target value not below d) |
| Chrono.CeilPoint | src/boson/boson/std/experimental/chrono.h:25-29 | `ceil<To>(tp)`: `ceil` of the time since the epoch (a definition; `CeilPointIsLeast` states what it returns) |
| Chrono.CeilIsAbove | src/boson/boson/std/experimental/chrono.h:18-23 | `ceil<To>(d)` is never below d |
| Chrono.CeilIsLeast | src/boson/boson/std/experimental/chrono.h:18-23 | one target tick less than `ceil<To>(d)` is below d, for negative durations too |
| Chrono.CeilOfExact | src/boson/boson/std/experimental/chrono.h:20-22 | a duration the target unit represents exactly comes back unchanged |
| Chrono.CeilIsMinimal | src/boson/boson/std/experimental/chrono.h:18-23 | any target value not below d is at least `ceil<To>(d)` |
| Chrono.CeilPointIsLeast | src/boson/boson/std/experimental/chrono.h:25-29 | the rounded time point is the earliest one in the target unit not before the given point |
| Chrono.MillisecondsToSeconds | src/boson/boson/std/experimental/chrono.h:18-23 | 1500 ms rounds up to 2 s and -1500 ms to -1 s |
| ChatCommon.Prefix4 | src/examples/src/full_chat_server.cc:29 | `substr(0, 4)`: a prefix of the text, at most four characters long |
| ChatCommon.StartsWithQuitIsPrefix | src/examples/src/full_chat_server.cc:29 | comparing the first four characters with "quit" is the test that "quit" is a prefix |
| ChatCommon.NRead | src/examples/src/full_chat_server.cc:27 | the count a `recv` returns: positive only for received bytes, and then their number; never below -1 |
| ChatCommon.Insert | src/examples/src/full_chat_server.cc:96 | `std::set::insert`: the fds stay in ascending order, gain the new one, and are unchanged when it is already there |
| ChatCommon.Erase | src/examples/src/full_chat_server.cc:111 | `std::set::erase`: the fds stay in ascending order, lose that one, and are unchanged when it is absent |
| ChatCommon.ToAll | src/examples/src/full_chat_server.cc:104-106 | one delivery of the message to each connection, in the set's order |
| ChatCommon.SendToAll | src/examples/src/full_chat_server.cc:104-106 | the loop sends exactly the deliveries `ToAll` lists |
| FullChatServer.ListenClient | src/examples/src/full_chat_server.cc:24-36 | the reader's loop sends exactly the commands `ClientCommands` describes |
| FullChatServer.ClientCommandsShape | src/examples/src/full_chat_server.cc:24-36 | however the reader ends it sends one `remove`, last; before it, each line read (the bytes minus the last) in order, as "Client fd says", none starting with "quit"; the read right after them is where the loop stopped: none left, end of stream, an error, or a line starting with "quit" |
| FullChatServer.ClientCommandsLines | src/examples/src/full_chat_server.cc:27-35 | the reader's commands are its lines in order, each as "Client fd says", then one `remove` |
| FullChatServer.ClientCommandsEnd | src/examples/src/full_chat_server.cc:27-30 | the read after the forwarded lines ended the loop: none left, end of stream, an error, or a line starting with "quit" |
| FullChatServer.ClientCommands | src/examples/src/full_chat_server.cc:24-36 | the commands `listen_client` writes for a sequence of read results (a definition; `ClientCommandsShape` states what they are) |
| FullChatServer.Line | src/examples/src/full_chat_server.cc:28 | the bytes of a read without the last one (a definition, used by the reader and the server's command reader) |
| FullChatServer.OneRemovePerClient | src/examples/src/full_chat_server.cc:35 | the only `remove` a reader sends is its last command |
| FullChatServer.ListenServerCommand | src/examples/src/full_chat_server.cc:38-53 | sends `quit` exactly when some line read before the input ends starts with "quit", and nothing else; the unknown lines are exactly the lines read before it, none starting with "quit", and the read right after them is the quit line when `quit` is sent, and otherwise none left, end of stream or an error |
| FullChatServer.EagainBecomesAdd | src/examples/src/full_chat_server.cc:60-64 | as written, an `accept` failing with `EAGAIN` reaches the coordinator as `add` of fd -1 |
| FullChatServer.AcceptCommandsAreConnections | src/examples/src/full_chat_server.cc:55-67 | the corrected acceptor (`EAGAIN` failures skipped) sends exactly one `add` per positive fd `accept` returned before the first result that ends it (0, or a failure other than `EAGAIN`), in order of acceptance, and nothing else; an fd is announced exactly when such an accept returned it |
| FullChatServer.AcceptorEnd | src/examples/src/full_chat_server.cc:60-62 | the position of the first `accept` result that ends the loop (0, or a failure other than `EAGAIN`); every result before it keeps the loop going |
| FullChatServer.NewFdsMembers | src/examples/src/full_chat_server.cc:60-63 | an fd is among the accepted fds exactly when it is positive and some `accept` returned it |
| FullChatServer.Adds | src/examples/src/full_chat_server.cc:63 | one `add` per fd, in the order of the fds |
| FullChatServer.AddsMembers | src/examples/src/full_chat_server.cc:63 | `add` of an fd is among them exactly when the fd is |
| FullChatServer.AcceptCommandsFilter | src/examples/src/full_chat_server.cc:60-64 | the corrected acceptor's commands are the `add`s of the accepted fds before the result that ends it, in order |
| FullChatServer.AcceptCommandsAsWritten | src/examples/src/full_chat_server.cc:55-67 | the acceptor as written: stops on 0 or a failure other than `EAGAIN`, and sends `add` for every other result (a definition; see `EagainBecomesAdd`) |
| FullChatServer.AcceptCommands | src/examples/src/full_chat_server.cc:55-67 | the corrected acceptor: an `EAGAIN` failure is skipped (a definition; `AcceptCommandsAreConnections` states what it sends) |
| FullChatServer.ListenNewConnections | src/examples/src/full_chat_server.cc:55-67 | the corrected acceptor (an `EAGAIN` failure is skipped, see Findings) sends exactly `AcceptCommands` and then closes the listening socket |
| FullChatServer.Coordinator.constructor | src/examples/src/full_chat_server.cc:87-89 | no connection, nothing sent, closed or started, and the loop not exited |
| FullChatServer.Coordinator.Add | src/examples/src/full_chat_server.cc:93-99 | the fd joins the set, its reader starts, and a "joined" message is queued back on the channel |
| FullChatServer.Coordinator.Broadcast | src/examples/src/full_chat_server.cc:100-107 | the message goes once to every connection, the sender included, in ascending fd order; nothing else changes |
| FullChatServer.Coordinator.Remove | src/examples/src/full_chat_server.cc:108-115 | the fd leaves the set and is closed, and an "exited" message is queued back on the channel |
| FullChatServer.Coordinator.QuitAll | src/examples/src/full_chat_server.cc:116-127 | every connection gets "Server exited." and is closed and put in panic, then the listening socket is put in panic and the loop exits; the set is kept |
| FullChatServer.Coordinator.Handle | src/examples/src/full_chat_server.cc:91-128 | one pass of the switch moves every field as `Apply` says: `add` inserts the fd, starts its reader and queues "joined"; `write` delivers the message to every connection in ascending order; `remove` erases the fd, closes it and queues "exited"; `quit` sends "Server exited." to every connection, closes and panics them and the listening socket, and exits; nothing else changes, and `exit` is set exactly by `quit` |
| FullChatServer.Coordinator.Run | src/examples/src/full_chat_server.cc:90-129 | processes the commands in delivery order and stops right after the first `quit`, or at the end when there is none; the final state is `Through` of the commands executed, and an fd is then a connection exactly when its last `add` or `remove` among them is an `add` |
| FullChatServer.Apply | src/examples/src/full_chat_server.cc:92-128 | one command's effect on the coordinator's state, field by field; the connections stay an ascending set |
| FullChatServer.Through | src/examples/src/full_chat_server.cc:90-129 | the state after a sequence of commands, each applied in order; the connections stay an ascending set |
| FullChatServer.ThroughStep | src/examples/src/full_chat_server.cc:87-129 | each pass of the `while (!exit)` loop moves the state by one more `Apply`, and the commands executed so far hold `quit` exactly when an earlier one or the new one is `quit` |
| FullChatServer.ThroughConnections | src/examples/src/full_chat_server.cc:90-129 | after any commands an fd is a connection exactly when its last `add` or `remove` is an `add` (or, with neither, it was one before); the readers started are the `add`ed fds in order, and the announcements are one "joined" per `add` and one "exited" per `remove`, in order |
| FullChatServer.ThroughDeliversToMembers | src/examples/src/full_chat_server.cc:100-124 | deliveries are only appended, and every one goes to an fd that was a connection before or that some `add` brought in: a client that never joined receives nothing |
| FullChatServer.TwoClients | src/examples/src/full_chat_server.cc:87-129 | clients 7 and 4 join, 4 speaks, 7 leaves, 4 speaks: the first message reaches 4 then 7, the second only 4, and 4 remains |
| ChatServer.FailedReadThrows | src/examples/src/chat_server.cc:20-21 | as written, a failed read (-1) or a one-byte read makes the string length `nread - 2` negative, so the reader throws instead of stopping |
| ChatServer.Line | src/examples/src/chat_server.cc:21 | the read bytes without the last two (the "\r\n" a terminal sends), or nothing when fewer than two arrived |
| ChatServer.AgreesOnLongReads | src/examples/src/chat_server.cc:17-29 | the corrected reader sends the same commands as the one as written whenever every read it reaches ends the stream or brings at least two bytes |
| ChatServer.ListenClient | src/examples/src/chat_server.cc:17-29 | the corrected reader's loop sends exactly the commands `ClientCommands` describes |
| ChatServer.ClientCommandsStop | src/examples/src/chat_server.cc:17-29 | the corrected reader sends nothing more at the end of the reads or at a closed or failed read |
| ChatServer.ClientCommandsShape | src/examples/src/chat_server.cc:20-27 | `remove` is sent only when a line starts with "quit", and then last; every earlier command forwards a line read, in order, as "Client fd says"; a reader that sent no `remove` stopped at the end of the reads, the end of the stream or an error |
| ChatServer.ClientCommandsLines | src/examples/src/chat_server.cc:20-27 | one command per read, in order: `remove` for a "quit" line, and then last, "Client fd says" for any other |
| ChatServer.ClientCommandsEnd | src/examples/src/chat_server.cc:20-24 | the corrected reader stops after a `remove`, or at the read right after its last command, which is past the reads, the end of the stream or an error |
| ChatServer.ClientCommandsAsWritten | src/examples/src/chat_server.cc:17-29 | the reader as written: it loops on any non-zero result and builds `nread - 2` bytes, throwing on a failed or one-byte read (a definition; see `FailedReadThrows`) |
| ChatServer.ClientCommands | src/examples/src/chat_server.cc:17-29 | the corrected `listen_client`: it stops on a failed read and forwards an empty line for a read shorter than the two-byte line ending (a definition; `ClientCommandsShape` states what it sends) |
| ChatServer.NoRemoveWithoutQuit | src/examples/src/chat_server.cc:20-27 | a client whose stream ends without a "quit" line is never removed |
| ChatServer.EagainBecomesAdd | src/examples/src/chat_server.cc:35-40 | as written, an `accept` failing with `EAGAIN` reaches the coordinator as `add` of fd -1 |
| ChatServer.AcceptCommandsAreConnections | src/examples/src/chat_server.cc:35-40 | the corrected acceptor (`EAGAIN` failures skipped) sends exactly one `add` per non-negative fd `accept` returned before the first failure other than `EAGAIN`, in order of acceptance, and nothing else; an fd is announced exactly when such an accept returned it |
| ChatServer.AcceptorEnd | src/examples/src/chat_server.cc:35-38 | the position of the first failure other than `EAGAIN`; every result before it keeps the loop going |
| ChatServer.NewFdsMembers | src/examples/src/chat_server.cc:36-39 | an fd is among the accepted fds exactly when it is non-negative and some `accept` returned it |
| ChatServer.Adds | src/examples/src/chat_server.cc:39 | one `add` per fd, in the order of the fds |
| ChatServer.AddsMembers | src/examples/src/chat_server.cc:39 | `add` of an fd is among them exactly when the fd is |
| ChatServer.AcceptCommandsFilter | src/examples/src/chat_server.cc:35-40 | the corrected acceptor's commands are the `add`s of the accepted fds before the first failure other than `EAGAIN`, in order |
| ChatServer.AcceptCommandsAsWritten | src/examples/src/chat_server.cc:31-41 | the acceptor as written: stops on a failure other than `EAGAIN` and sends `add` for every other result (a definition; see `EagainBecomesAdd`) |
| ChatServer.AcceptCommands | src/examples/src/chat_server.cc:31-41 | the corrected acceptor: an `EAGAIN` failure is skipped (a definition; `AcceptCommandsAreConnections` states what it sends) |
| ChatServer.ListenNewConnections | src/examples/src/chat_server.cc:31-41 | the corrected acceptor's loop (an `EAGAIN` failure is skipped, see Findings) sends exactly `AcceptCommands` |
| ChatServer.Coordinator.constructor | src/examples/src/chat_server.cc:54-56 | no connection, and nothing started, sent or closed |
| ChatServer.Coordinator.Add | src/examples/src/chat_server.cc:60-66 | the fd joins the set, its reader starts, and a "joined" message is queued back on the channel |
| ChatServer.Coordinator.Broadcast | src/examples/src/chat_server.cc:67-74 | the message goes once to every connection in ascending fd order; nothing else changes |
| ChatServer.Coordinator.Remove | src/examples/src/chat_server.cc:75-82 | the fd leaves the set and is closed, and an "exited" message is queued back on the channel |
| ChatServer.Coordinator.Handle | src/examples/src/chat_server.cc:58-83 | one pass of the switch moves every field as `Apply` says: `add` inserts the fd, starts its reader and queues "joined"; `write` delivers the message to every connection in ascending order; `remove` erases the fd, closes it and queues "exited"; nothing else changes |
| ChatServer.Coordinator.Run | src/examples/src/chat_server.cc:57-84 | nothing sets `exit`, so every command is handled in order; the final state is `Through` of the commands, and an fd is then a member exactly when its last `add` has no later `remove` |
| ChatServer.Apply | src/examples/src/chat_server.cc:59-83 | one command's effect on the coordinator's state, field by field; the connections stay an ascending set |
| ChatServer.Through | src/examples/src/chat_server.cc:57-84 | the state after a sequence of commands, each applied in order; the connections stay an ascending set |
| ChatServer.ThroughConnections | src/examples/src/chat_server.cc:57-84 | after any commands an fd is a connection exactly when its last `add` or `remove` is an `add` (or, with neither, it was one before); the readers started are the `add`ed fds in order, and the announcements are one "joined" per `add` and one "exited" per `remove`, in order |
| ChatServer.ThroughDeliversToMembers | src/examples/src/chat_server.cc:67-82 | deliveries are only appended, and every one goes to an fd that was a connection before or that some `add` brought in: a client that never joined receives nothing |
| GoChat.PublishedShape | docs/go_examples/simplechat/chat.go:11-22 | a reader publishes lines of its first reads in order, each the read without its last byte, never the exact line "quit"; every read before the one where it returns is published, and it returns at the first error, empty read or "quit" line |
| GoChat.PublishedLines | docs/go_examples/simplechat/chat.go:12-21 | the published lines are the first reads, in order, each without its last byte, none equal to "quit" |
| GoChat.PublishedEnd | docs/go_examples/simplechat/chat.go:12-18 | the read right after the published lines, if any, is an error, an empty read or the line "quit" |
| GoChat.Published | docs/go_examples/simplechat/chat.go:8-23 | the lines a reader publishes for a sequence of reads (a definition; `PublishedShape` states what they are) |
| GoChat.Forwarded | docs/go_examples/simplechat/chat.go:25-33 | the connections the acceptor forwards (a definition; `ForwardedAreAccepted` states what they are) |
| GoChat.Rate | docs/go_examples/simplechat/chat.go:39 | the printed rate, the count times one second over the measured step (a definition; see `RateBounds`) |
| GoChat.QuitIsExact | docs/go_examples/simplechat/chat.go:16-18 | the quit test is an exact match: "quit\n" ends the reader while "quit now\n" is published |
| GoChat.ListenClient | docs/go_examples/simplechat/chat.go:8-23 | the reader publishes exactly `Published` and always closes the connection |
| GoChat.ForwardedAreAccepted | docs/go_examples/simplechat/chat.go:27-32 | a connection is forwarded exactly when `Accept` returned it without error |
| GoChat.HandleNewConnections | docs/go_examples/simplechat/chat.go:25-33 | the acceptor's loop forwards exactly `Forwarded` |
| GoChat.RateBounds | docs/go_examples/simplechat/chat.go:39 | over one second the printed rate is the count itself, and over a longer step it is no more than the count |
| GoChat.DisplayCount | docs/go_examples/simplechat/chat.go:35-45 | each round prints the swapped count scaled by the step measured in the round before (one second in the first round) |
| GoChat.KeysNeverShrink | docs/go_examples/simplechat/chat.go:56-69 | connections are never removed from the map, and every new connection received is in it afterwards |
| GoChat.Fan | docs/go_examples/simplechat/chat.go:63-66 | one write of the data to each connection of the iteration order, in that order |
| GoChat.OrderSize | docs/go_examples/simplechat/chat.go:63 | an iteration order over the map visits as many connections as the map holds |
| GoChat.Relay.constructor | docs/go_examples/simplechat/chat.go:51-52 | an empty map, no reader, nothing written, counter at zero |
| GoChat.Relay.NewConnection | docs/go_examples/simplechat/chat.go:58-60 | the connection is added to the map and its reader started; nothing is written |
| GoChat.Relay.Publish | docs/go_examples/simplechat/chat.go:61-66 | the line plus "\n" is written once to each connection in the map's iteration order, and the counter grows by the number of connections |
| GoChat.Relay.Run | docs/go_examples/simplechat/chat.go:56-69 | after the events the map holds `KeysAfter`, a reader was started for each new connection in order, the writes are `Writes` (each line plus "\n" to each connection of its iteration order), and the counter grew by `Fanout`, which is exactly the number of writes |
| GoChat.Step | docs/go_examples/simplechat/chat.go:57-67 | one `select` case on the main loop's state: a new connection joins the map and gets a reader; a line is written to every connection of the order and the counter grows by the map's size (a definition) |
| GoChat.StepsTotals | docs/go_examples/simplechat/chat.go:56-69 | after any events the map holds `KeysAfter`, the readers are the new connections in order, the writes are `Writes` and the counter grew by `Fanout` |
| GoChat.KeysAfter | docs/go_examples/simplechat/chat.go:56-62 | the connections the map holds after the events: the initial ones plus every new connection (a definition; `KeysNeverShrink` states it) |
| GoChat.Fanout | docs/go_examples/simplechat/chat.go:63-66 | the number of writes the events cause: the map's size at each line, summed (a definition; `WritesCounted` ties it to the writes) |
| GoChat.Writes | docs/go_examples/simplechat/chat.go:63-66 | the writes of the events in order: each line plus "\n" to every connection of its iteration order (a definition; `WritesCounted` and `Relay.Run` state its use) |
| GoChat.NewConns | docs/go_examples/simplechat/chat.go:58-61 | the new connections among the events, in order, each of which gets a reader (a definition; `Relay.Run` states its use) |
| GoChat.WritesCounted | docs/go_examples/simplechat/chat.go:63-66 | the number of writes is `Fanout`, the map's size summed over the lines, and every write goes to a connection the map holds |
| GoChat.OneLineTwoConnections | docs/go_examples/simplechat/chat.go:56-69 | with connections 5 and 3 and one line, the line plus "\n" reaches both once and the counter is 2 |
| ChatVsGo.ReaderShape | src/examples/src/chat_vs_go.cc:26-39 | the reader forwards its first reads unchanged, none equal to "quit"; the first read it does not forward is "quit" (return) or a read of at most one byte (exit with status 1) |
| ChatVsGo.Reader | src/examples/src/chat_vs_go.cc:24-40 | what a reader forwards and how it ends (a definition; `ReaderShape` states what it does; running out of results counts as `Exit(1)`, see Left out) |
| ChatVsGo.TerminatedQuitIsForwarded | src/examples/src/chat_vs_go.cc:33-34 | nothing is stripped, so "quit\r\n" is forwarded rather than taken as the quit command |
| ChatVsGo.ListenClient | src/examples/src/chat_vs_go.cc:24-40 | the reader's loop forwards exactly what `Reader` says, ends as it says, and closes the fd |
| ChatVsGo.AcceptorShape | src/examples/src/chat_vs_go.cc:47-54 | the acceptor throws exactly when an accepted fd refuses `TCP_NODELAY`; it forwards exactly the fds accepted before the first such one, in order of acceptance (`AcceptedFds`), each with the option set |
| ChatVsGo.AcceptorEnd | src/examples/src/chat_vs_go.cc:49-51 | the position of the first accepted fd that refuses `TCP_NODELAY`; no accept before it does |
| ChatVsGo.AcceptedFdsMembers | src/examples/src/chat_vs_go.cc:48-49 | an fd is among the accepted fds exactly when it is non-negative and some `accept` returned it |
| ChatVsGo.AcceptorFilter | src/examples/src/chat_vs_go.cc:47-54 | the acceptor forwards the accepted fds before the first refusal, in order, and throws exactly when there is a refusal |
| ChatVsGo.AcceptedFds | src/examples/src/chat_vs_go.cc:48-53 | the non-negative fds among the accepts, in order (a definition; `AcceptedFdsMembers` states membership) |
| ChatVsGo.Acceptor | src/examples/src/chat_vs_go.cc:42-55 | what the acceptor forwards and whether it throws (a definition; `AcceptorShape` states what it does) |
| ChatVsGo.HandleNewConnections | src/examples/src/chat_vs_go.cc:42-55 | the acceptor's loop forwards exactly what `Acceptor` says |
| ChatVsGo.RateBounds | src/examples/src/chat_vs_go.cc:63 | below 2^54 writes per interval the 64-bit product does not wrap: over 1000 ms the rate is the count, over a longer step no more |
| ChatVsGo.Rate | src/examples/src/chat_vs_go.cc:63 | the printed rate, `count * 1000` modulo 2^64 over the step in milliseconds (a definition; see `RateBounds`) |
| ChatVsGo.MeasuredSteps | src/examples/src/chat_vs_go.cc:66 | a measured 1.5 s becomes 1500 ms and an interval under 1 ms truncates to 0 |
| ChatVsGo.DisplayCounter | src/examples/src/chat_vs_go.cc:57-70 | each round prints the swapped count times 1000, modulo 2^64, over the milliseconds measured in the round before (1000 in the first) |
| ChatVsGo.Step | src/examples/src/chat_vs_go.cc:94-112 | a new connection is appended (repeats kept); a received message plus "\n" is written to the drawn connection, a failed write exits with status 1, and a successful one adds one to both counters |
| ChatVsGo.RunFromAccounts | src/examples/src/chat_vs_go.cc:87-114 | over any run the two counters grow together, the cumulated one never passes one million, connections and writes only grow, each write goes to a known connection with a message plus "\n", and status 1 comes only from a failed write |
| ChatVsGo.RunFrom | src/examples/src/chat_vs_go.cc:87-114 | the state after the events, each applied as `Step` says (a definition; `RunFromAccounts` and `RunOutcome` state what it keeps) |
| ChatVsGo.RunOutcome | src/examples/src/chat_vs_go.cc:90-114 | the loop exits with status 0 exactly when a million writes succeeded, with status 1 after a failed write, and not at all if the events run out first |
| ChatVsGo.Relay.constructor | src/examples/src/chat_vs_go.cc:79-88 | no connection, nothing written, both counters at zero, no exit |
| ChatVsGo.Relay.NewConnection | src/examples/src/chat_vs_go.cc:95-100 | the state moves as `Step` says for a new connection |
| ChatVsGo.Relay.Forward | src/examples/src/chat_vs_go.cc:101-112 | the state moves as `Step` says for a received message |
| ChatVsGo.Relay.Run | src/examples/src/chat_vs_go.cc:87-114 | the final state is `RunFrom` of the events, with status 0 set once the target is reached; stopping before the last event means the process exited |
| ChatVsGo.DrawnRecipient | src/examples/src/chat_vs_go.cc:94-112 | with two connections and one message drawn for the second, only that connection gets it, and both counters are 1 |
| ContextThread.AppliedSnoc | src/boson/src/thread.cc:21-31 | applying one more command adds its routine, or moves the status to finishing, on top of the earlier ones |
| ContextThread.Drained | src/boson/src/thread.cc:21-31 | the queue drained into the schedule and the status (a definition; `AddedMembers` and `StatusAfterFinish` state what it does) |
| ContextThread.Executed | src/boson/src/thread.cc:68-90 | one round of `execute_scheduled_routines` on the thread's state (a definition; `ExecutedRound` states what it does) |
| ContextThread.Handled | src/boson/src/thread.cc:19-33 | `handle_engine_event`: drain, then a round (a definition; see `FinishEndsThread`) |
| ContextThread.OnEvent | src/boson/src/thread.cc:45-50 | `event`: which event leads to which handling (a definition; `Thread.Event` is proved against it) |
| ContextThread.Looped | src/boson/src/thread.cc:92-116 | the state after the loop handles delivered events until `finished` (a definition; `LoopedStops` and `NoFinishNoEnd` state what it does) |
| ContextThread.AddedMembers | src/boson/src/thread.cc:23-26 | a routine is scheduled by the drain exactly when an `add_routine` command carries it |
| ContextThread.Added | src/boson/src/thread.cc:23-26 | the routines the drained `add_routine` commands carry, in order (a definition; `AddedMembers` states membership) |
| ContextThread.StatusAfter | src/boson/src/thread.cc:27-29 | the status after the drained commands (a definition; `StatusAfterFinish` states it) |
| ContextThread.StatusAfterFinish | src/boson/src/thread.cc:27-29 | the drain leaves the status `finishing` exactly when a `finish` command was queued, and unchanged otherwise |
| ContextThread.UnfinishedMembers | src/boson/src/thread.cc:72-79 | a routine is kept exactly when it was scheduled and did not finish |
| ContextThread.Unfinished | src/boson/src/thread.cc:72-79 | the scheduled routines that did not finish, in order (a definition; `UnfinishedMembers`, `UnfinishedAppend` and `UnfinishedExtremes` state it) |
| ContextThread.UnfinishedAppend | src/boson/src/thread.cc:72-79 | the kept routines keep their relative order |
| ContextThread.UnfinishedExtremes | src/boson/src/thread.cc:72-80 | when no routine finishes the schedule is kept as it is; when all do, it is emptied |
| ContextThread.ExecutedRound | src/boson/src/thread.cc:68-90 | a round resumes every scheduled routine once, in order, and ends the thread exactly when it was finishing and every routine finished; otherwise it posts the self event |
| ContextThread.FinishEndsThread | src/boson/src/thread.cc:19-33 | after a `finish` command, the engine event ends the thread when every scheduled or queued routine finishes in that round |
| ContextThread.NoFinishNoEnd | src/boson/src/thread.cc:19-90 | without a `finish` command the thread never becomes finished |
| ContextThread.LoopedStops | src/boson/src/thread.cc:113-115 | the loop ends at `finished` or after using up the delivered events |
| ContextThread.Thread.constructor | src/boson/src/thread.cc:40-43 | idle, nothing scheduled, an empty queue of 100, and both events registered with the loop |
| ContextThread.Thread.PushCommand | src/boson/src/thread.cc:59-61 | the command is queued exactly when fewer than 100 wait; nothing else changes |
| ContextThread.Thread.ExecuteScheduledRoutines | src/boson/src/thread.cc:68-90 | the state after the round is `Executed`: the routines resumed in order, the unfinished ones kept, and either `finished` or one more self event |
| ContextThread.Thread.Drain | src/boson/src/thread.cc:21-31 | every queued command is popped in order and applied, leaving the queue empty |
| ContextThread.DrainedFirst | src/boson/src/thread.cc:21-31 | draining the queue is applying its first command (an added routine joins the schedule, `finish` sets `Finishing`) and then draining the rest |
| ContextThread.Thread.HandleEngineEvent | src/boson/src/thread.cc:19-33 | draining the queue, then running a round |
| ContextThread.Thread.Event | src/boson/src/thread.cc:45-50 | the engine event drains and runs a round, the self event runs a round, and any other event changes nothing |
| ContextThread.Thread.Loop | src/boson/src/thread.cc:92-116 | the delivered events are handled in order until the status is `finished`; handling stops early only then |
| ContextThread.TwoRoutinesThenFinish | src/boson/src/thread.cc:19-116 | two routines then `finish`: the first round resumes both and keeps the unfinished one; the next round, in which it finishes, ends the thread |
| ContextThread.TwoRoutinesRounds | src/boson/src/thread.cc:19-116 | the two rounds of that scenario on thread states: after the engine event routine 2 alone stays scheduled with the thread finishing; after the self event the thread is finished and unregistered |

## Left out

- Concurrency: atomics, memory orders, mutexes and the threads sharing `weakrb`, `mpsc`, the simple queues, the netpoller's command queue and `internal/thread.cc` are modelled as one thread of plain fields; interleavings of producers and consumers are not modelled.
- Channels: a channel is the sequence of values its reader receives; the order in which several writers' values interleave, and the commands a coordinator writes back to its own channel (recorded in `requeued`), are inputs rather than modelled scheduling.
- Kernel and platform: `netpoller_platform_impl`, epoll, `recv`, `accept`, `write`, `setsockopt`, `shutdown`, `close` and `fd_panic` are not modelled; their results are inputs and their calls are recorded in logs.
- Context switching: resuming a routine is an input that says whether it finished (`src/thread.cc`) or which status it reports; stacks, `fcontext` and the routine's function are not part of this model.
- Integer widths: `weakrb`'s `size_t` counters, `sparse_vector`'s `int64_t` entries, the netpoller's `int` fds, the Go `int64` counter, the `int64_t` tick counts of `chrono` (`ceil`'s cast and comparison) and the `int` products `2 * nprocs` and `4 * nprocs * nptrs` of the LCRQ hazard-pointer sizes are unbounded integers, so the signed overflow these can reach in the source does not occur in the model; 2^64 wrap-around is modelled only where it decides a result (the registration word, the LCRQ tags, the 64-bit rate product of `chat_vs_go.cc`).
- Output: the reporters' `printf`/`fmt.Println` lines are returned as sequences of numbers; `listen_server_command`'s prompts on standard output are not modelled beyond the list of unknown lines; the `std::cout` logging of the coordinators is not modelled.
- Time and randomness: `high_resolution_clock`, `time.Now` and `std::minstd_rand` are not modelled; measured intervals and the drawn index are inputs.
- `mpsc::del`: destroying a node's payload is memory management and is not modelled; a read simply moves the value out.
- `simple.cc` defines its `void*` queue under the name `simple_queue`, while `simple.h` declares that interface as `simple_void_queue`; the model calls it `SimpleVoidQueue`.
- `chrono.h` `is_duration`: a compile-time trait that only restricts which types `ceil` accepts; every model of a duration is an integer tick count with a `Ratio`, so the trait has no counterpart.
- `netpoller::loop(nb_iter, Duration)`: the overload only converts its duration to milliseconds, and `interrupt` only wakes the platform; the time-out itself is part of the platform round, an input.
- `internal/thread.cc`: `register_read` and `register_write` share the body `RegisterIo`, given the word the event loop holds for the fd's side; the resume pass of `execute_scheduled_routines`, the read/write/event handlers, `unregister_all_events`, the engine proxy's `set_id`, `notify_idle` and `send_event` are not modelled beyond the end-of-round decision, which reports whether idleness is notified.
- `src/thread.cc`: the `thread::loop` waits in the event loop between deliveries; here the delivered events are an input sequence. `execute_commands` only posts the engine event and is not modelled.
- `json_backbone`: the variant's storage (placement new, dispatch tables), the compile-time selection of constructible types and the visitors are not modelled; a variant is an alternative index with a payload, and the payload orders are parameters.
- `lcrq.h`: the lock-free enqueue and dequeue with hazard pointers are not modelled; only the bit helpers, `init_ring` and the hazard pointer sizes are.
- VectorizedQueue.VectorizedQueue.constructor: requires `initial_size != 1`, because the source then reads the last element of an empty vector (see Findings).
- SparseVector.SparseVector.Free and LinearAllocator.LinearAllocator.Free: require the cell to be allocated; the source does not check this, and a double free corrupts the chain.
- Netpoller.Netpoller.LocalUnregisterRead and Netpoller.Netpoller.LocalUnregisterWrite: require `fd < waiters_.size()`, the assertion the source makes.
- ChatVsGo.Relay.Run: requires that each message drawn arrives when the drawn index is below the number of connections, since the source's draw over an empty vector is undefined.
- ChatVsGo.DisplayCounter: requires every measured interval to truncate to at least one millisecond, since the source divides by it; the clock is assumed to be monotone.
- GoChat.DisplayCount: requires positive measured intervals, since the source divides by them.
- GoChat.Relay.Publish: Go's map iteration order is unspecified, so it is an input, any order of the map's keys.
- FullChatServer.Coordinator.Run and ChatServer.Coordinator.Run: a command `add`, `write` or `remove` from any source is accepted; which routine wrote it is not modelled.
- LocalPtr.LocalPtr.Reset: the old value's deletion is not modelled; the record's value is replaced and its count kept, and no `released` mark is set, since that mark records the deletion of the whole record.
- LinearAllocator.LinearAllocator.Allocate: the source returns a pointer into its value vector (`&data_.back()` or `&data_[cell_index]`); an allocation on an empty chain appends to that vector, which may move it and leave every pointer returned earlier dangling. The model returns the cell's index, which no growth invalidates, so it does not capture that invalidation.
- FlatUnorderedSet.FlatUnorderedSet.Insert: the returned position is modelled as an index into the values; the source returns the `end()` iterator taken before the append, which the append may invalidate, and that invalidation is not modelled.
- ChatVsGo.Reader: a reader that runs out of the supplied read results ends as `Exit(1)`; the process would instead block in `read`, so this ending is an artefact of the finite input.

## Findings

| source | as written | input that shows it | evidently intended | confidence | as-written member | corrected member |
|---|---|---|---|---|---|---|
| src/boson/boson/memory/sparse_vector.h:45-55 | the constructor never sets `last_free_cell_`, so the debug `has` compares against -1 | `sparse_vector(1)`, then `has(0)` on the free cell 0 answers true | `has` holds only for allocated cells: the constructor records the chain's last cell | not executed | SparseVector.HasAsWrittenAcceptsFreeCell | SparseVector.SparseVector.Has |
| src/boson/boson/queues/vectorized_queue.h:71-74 | the loop stops at `initial_size - 1`, so one cell fewer is created, and the last is then given `empty` links | `vectorized_queue(5)` holds 4 cells; `vectorized_queue(1)` calls `back()` on an empty vector | `initial_size` free cells chained in order | not executed | VectorizedQueue.VectorizedQueue.constructor | VectorizedQueue.VectorizedQueue.Sized |
| src/boson/boson/memory/local_ptr.h:56-62 | copy assignment releases this handle's share before taking the other's record | the only handle on a record assigned to itself: the value and record are deleted and the handle ends empty | self-assignment leaves the handle unchanged | not executed | LocalPtr.SelfCopyAssign | LocalPtr.SelfCopyAssignGuarded |
| src/examples/src/full_chat_server.cc:60-64 | an `accept` failing with `EAGAIN` falls through to `add` of the returned -1 | one `accept` returning -1 with `errno == EAGAIN` | skip the failure and accept again | not executed | FullChatServer.EagainBecomesAdd | FullChatServer.AcceptCommandsAreConnections |
| src/examples/src/chat_server.cc:35-40 | an `accept` failing with `EAGAIN` falls through to `add` of the returned -1 | one `accept` returning -1 with `errno == EAGAIN` | skip the failure and accept again | not executed | ChatServer.EagainBecomesAdd | ChatServer.AcceptCommandsAreConnections |
| src/examples/src/chat_server.cc:20-21 | the loop continues on any non-zero `recv` result and builds a string of `nread - 2` bytes | a `recv` failing with -1 (connection reset), or a one-byte read: the length is negative, so `std::string` throws | stop on a failed read; a read shorter than the two-byte line ending forwards an empty line | not executed | ChatServer.FailedReadThrows | ChatServer.ClientCommandsShape |
