# Models of a systems study repository

This project models the algorithms with heavy mutable state in a C and C++ study repository and proves
what they are for. Every file is a module of the same subject; `dafny verify dfyconfig.toml` checks all
of them.

- **Heap allocators** (`heap_layout`, `requests`, `words`, `tags`, `implicit_allocator`, `heap_runs`,
  `seg_lists`, `seg_index`, `segregated_allocator`, `clients`, `heap_session`). Both boundary-tag
  allocators work on an array of 32-bit words and refine one abstract allocator, a layout of blocks. Pointers
  are word offsets and 0 is the null pointer. The segregated allocator threads its lists through the
  payloads of free blocks.
  `clients` is the view of a program that uses an allocator: what it holds and the bytes it has written.
- **Reactor and thread pool** (`server_connection`, `server_peer`, `reactor`, `reactor_order`,
  `reactor_runs`, `reactor_service`). The event loop, the workers, the two queues and the eventfd are a step system; sockets
  are replaced by arbitrary answers. The connection is modelled twice: as transitions on a value, and as
  the object the loop updates, proved against them.
- **Search trees** (`avl_tree`, `avl_runs`, `avl_map`, `bst_map`). The AVL algorithms as functions on trees,
  whole runs of them, and methods on node objects that compute them; the binary search tree with parent
  links on node objects, with its successor iterator.
- **Hash table** (`hash_chains`, `hash_table`, `hash_runs`). Chained buckets on node objects, for every
  hash function, and the cost of rehashing over whole runs.
- **Streams and frames** (`streams`, `rio`, `framing`). Buffered reading and length-prefixed frames over
  a kernel that moves as many bytes as it likes, may be interrupted and may fail.
- **Smaller machines** (`log_queue`, `bounded_buffer`, `modular`, `ring_deque`, `shared_ptr`). `options` is
  shared by several files.

Places where the code does not do what it is meant to are stated as they are.

- Erasing from the AVL tree can leave one node out of balance: `AvlTree.EraseFromAvl` says exactly when,
  and `AvlTree.EraseCanUnbalance` gives an input.
- On a tree left so, a later put may turn a node that lacks the child it turns on, and read a null pointer.
  `AvlRuns.InsertCanMissItsPivot` is a run from the empty map that ends so. `AvlRuns.FailsAtATrap` says
  which runs do; `AvlRuns.FailsExactlyWhenSnared` and `AvlRuns.LowIsSafe` say what a caller can check
  before a put. Runs whose removes all restore balance never fail (`AvlRuns.UnflawedRunsAreSafe`).
- A deque that is filled from the front whenever it has run empty doubles its buffer each time:
  `RingDeque.FrontPairsGrow`; without that its buffer fits what it holds, `RingDeque.BufferFitsPeak`.
- Two shared pointers made from the same raw pointer delete it twice: `SharedPtr.AllDeletedAtTheEnd` says
  that this is the only way to, and `SharedPtr.HandedOverTwice` gives an input.

## Model

| member | source | states |
|---|---|---|
| `HeapLayout.BlocksPartitionHeap` | csapp/chapter9/malloc/mm.c:34-44 | in a tiled heap every word between prologue and epilogue belongs to exactly one block |
| `HeapLayout.CoalesceWellFormed` | csapp/chapter9/malloc/mm.c:158-197 | coalescing the one block that may have free neighbours leaves a tiling without two neighbouring free blocks, keeps every live block, and the coalesced block covers the old one |
| `HeapLayout.CoalesceIsMerges` | csapp/chapter9/malloc/mm.c:158-197 | the four-case coalesce is a merge with the next block and a merge into the previous one, whichever are free |
| `HeapLayout.PlaceWellFormed` | csapp/chapter9/malloc/mm.c:278-294 | placing a request in a fitting free block makes exactly that block live, splits off the rest only if it can be a block, and changes no other live block |
| `HeapLayout.ExtendWellFormed` | csapp/chapter9/malloc/mm.c:252-273 | growing the heap appends a free block, coalesced with a free last one; live blocks stay |
| `HeapLayout.FreeWellFormed` | csapp/chapter9/malloc/mm.c:134-151 | freeing removes exactly one block from the live blocks and keeps the heap well formed |
| `HeapLayout.AllocatesWellFormed` | csapp/chapter9/malloc/mm.c:94-127 | a request answers null and changes nothing exactly when nothing fits and the break cannot move; otherwise one new aligned block, at least as big as asked and at most 8 bytes bigger |
| `Requests.AdjustedIsLeast` | csapp/chapter9/malloc/mm.c:109-113 | the block size is the least multiple of 8 from 16 on with room for the request and 8 bytes of tags |
| `Requests.PayloadFits` | csapp/chapter9/malloc/mm.c:109-127 | the pointer handed out is aligned to 8 bytes, at least the requested number of bytes lie behind it, and its block is less than 32 bytes bigger |
| `Requests.BreakMoves` | csapp/chapter9/malloc/mm.c:121-126 | the break moves only when nothing fits, and then by the block size or 4096 bytes, whichever is more, or not at all if that does not fit |
| `HeapLayout.AllocatedApart` | csapp/chapter9/malloc/mm.c:94-127 | the block handed out is none of the live ones, and those stay as they are |
| `HeapLayout.FreeUndoesPlace` | csapp/chapter9/malloc/mm.c:134-151 | freeing the block just placed gives back the layout before, in a heap without neighbouring free blocks |
| `HeapLayout.AllFreeIsOneBlock` | csapp/chapter9/malloc/mm.c:158-197 | when nothing is live the heap is one free block |
| `Words.TagBits` | csapp/chapter9/malloc/mm.c:26-36 | the integer PACK, GET_SIZE and GET_ALLOC of the model are the or-ing and masking of the macros, bit by bit |
| `Tags.Behind` | csapp/chapter9/malloc/mm.c:43 | reading the header behind a block finds the next block and its state, or the epilogue |
| `Tags.Before` | csapp/chapter9/malloc/mm.c:44 | reading the footer in front of a block finds the previous block and its state, or the prologue |
| `Tags.CoalesceTags` | csapp/chapter9/malloc/mm.c:158-197 | the tag writes of coalesce turn a correctly tagged heap into the correctly tagged coalesced heap and touch no live payload |
| `Tags.PlaceTags` | csapp/chapter9/malloc/mm.c:278-294 | the tag writes of place leave a correctly tagged heap and touch no live payload |
| `ImplicitAllocator.Heap.Sbrk` | csapp/chapter9/malloc/memlib.c:40-51 | the break moves by the increment, or not at all when it is negative or beyond the region |
| `ImplicitAllocator.IncrementIs` | csapp/chapter9/malloc/memlib.c:40-47 | the int parameter of mem_sbrk carries a size exactly up to INT_MAX; up to 2^32 it turns negative, which is refused, and beyond it is less than the size |
| `ImplicitAllocator.Heap.Init` | csapp/chapter9/malloc/mm.c:66-87 | prologue, epilogue and one free chunk; the three outcomes of the two mem_sbrk calls |
| `ImplicitAllocator.Heap.Coalesce` | csapp/chapter9/malloc/mm.c:158-197 | the words afterwards are those of the coalesced layout; live payloads are untouched |
| `ImplicitAllocator.Heap.ExtendHeap` | csapp/chapter9/malloc/mm.c:252-273 | null and nothing changed exactly when the rounded size does not fit; otherwise the extended layout |
| `ImplicitAllocator.Heap.Place` | csapp/chapter9/malloc/mm.c:278-294 | the words afterwards are those of the layout with the block placed; live payloads are untouched |
| `ImplicitAllocator.Heap.FindFit` | csapp/chapter9/malloc/mm.c:302-335 | the lowest fitting free block, or null exactly when none fits |
| `ImplicitAllocator.Heap.Malloc` | csapp/chapter9/malloc/mm.c:94-127 | null and no word changed, or the first fit, or the grown heap; the payload is aligned and as big as asked, the block less than 32 bytes bigger; no byte of a live payload changes |
| `ImplicitAllocator.Heap.Free` | csapp/chapter9/malloc/mm.c:134-151 | frees exactly the block; no byte of another live payload changes; freeing null does nothing |
| `ImplicitAllocator.Heap.Realloc` | csapp/chapter9/malloc/mm.c:203-235 | the four cases; on success the first min(new size, old payload) bytes arrive, on failure no word changes; other live payloads stay |
| `ImplicitAllocator.Heap.ClientWrite` | csapp/chapter9/malloc/mm.c:31-44 | whatever a client writes into its payload, the heap stays well formed |
| `HeapRuns.RunKeeps` | csapp/chapter9/malloc/mm.c:94-235 | over every run of requests and releases the heap stays well formed and its live blocks are exactly what was handed out and not given back |
| `HeapRuns.PayloadsApart` | csapp/chapter9/malloc/mm.c:94-235 | two live payloads never share a word |
| `HeapRuns.RunsReclaimAll` | csapp/chapter9/malloc/mm.c:134-197 | after any run that ends with nothing held the heap is one free block |
| `Clients.ServesMove` | csapp/chapter9/malloc/mm.c:203-235 | a successful realloc keeps every other payload, and of the moved one the bytes that still fit |
| `Clients.ServesMalloc` | csapp/chapter9/malloc/mm.c:94-127 | a request keeps every byte its client has written and hands out a piece as big as asked |
| `Clients.ServesStore` | csapp/chapter9/malloc/mm.c:31-44 | a byte written by the client is there afterwards, and every other byte written is still |
| `HeapSession.Perform` | csapp/chapter9/malloc/mm.c:94-235 | one operation of a client on the real heap asks the allocator exactly what the operation stands for, and afterwards the heap has what the client holds and has written |
| `Clients.AsBigAsAsked` | csapp/chapter9/malloc/mm.c:94-235 | in the client's view a piece is as big as the call that was answered with it asked for |
| `Clients.LastWritten` | csapp/chapter9/malloc/mm.c:94-235 | in the client's view a byte is the one last stored there, until the piece is given away |
| `Clients.ResizeKeeps` | csapp/chapter9/malloc/mm.c:203-235 | in the client's view a successful resize takes the bytes that still fit along and touches no other piece |
| `HeapSession.Session` | csapp/chapter9/malloc/mm.c:66-235 | any program of malloc, free, realloc and writes on the real heap, starting uninitialised: the allocator is asked exactly the calls the program stands for, the heap is well formed, its live blocks are those held, each as big as asked and with every byte last written to it, moved ones included |
| `SegLists.ClassMonotone` | csapp/chapter9/malloc/flsp.c:43-48 | a bigger size never has a smaller list index |
| `SegLists.ClassBounds` | csapp/chapter9/malloc/flsp.c:43-48 | the fifteen size classes in bytes: up to 32, up to 64 and so on to 262144, and everything above |
| `SegLists.InsertChained` | csapp/chapter9/malloc/flsp.c:50-59 | the link writes of insert_node put the block at the head of its list and leave all PRED and SUCC links of all lists matching |
| `SegLists.UnlinkChained` | csapp/chapter9/malloc/flsp.c:77-82 | the link writes of delete_node take out exactly the block, whether first, last or in the middle, and leave all links matching |
| `SegIndex.ListedExactlyOnce` | csapp/chapter9/malloc/flsp.c:43-59 | every free block is listed exactly once, in the list of its size; no allocated block is listed |
| `SegIndex.LinksSpareTags` | csapp/chapter9/malloc/flsp.c:77-104 | list surgery touches no tag and no live payload |
| `SegIndex.TagsSpareLists` | csapp/chapter9/malloc/flsp.c:84-104 | writing the tags of an unlisted block disturbs no list |
| `SegIndex.ClientSparesLists` | csapp/chapter9/malloc/flsp.c:33-59 | a client writing in its payload disturbs no list |
| `SegIndex.FitsAbove` | csapp/chapter9/malloc/flsp.c:144-154 | a fitting free block can only be in the list of the request or a later one |
| `SegregatedAllocator.Heap.GetIndex` | csapp/chapter9/malloc/flsp.c:43-48 | the loop computes the size class |
| `SegregatedAllocator.Heap.InsertNode` | csapp/chapter9/malloc/flsp.c:50-59 | the block becomes the first of its list; only link words of listed blocks are written |
| `SegregatedAllocator.Heap.DeleteNode` | csapp/chapter9/malloc/flsp.c:77-82 | the block leaves its list; the others keep their order |
| `SegregatedAllocator.Heap.Coalesce` | csapp/chapter9/malloc/flsp.c:84-104 | neighbours leave the lists, tags are merged, the result is listed; same layout as the other allocator's coalesce |
| `SegregatedAllocator.Heap.ExtendHeap` | csapp/chapter9/malloc/flsp.c:106-114 | the extended layout, listed and tagged |
| `SegregatedAllocator.Heap.Place` | csapp/chapter9/malloc/flsp.c:128-142 | the block leaves its list and the remainder enters one; same layout as the other allocator's place |
| `SegregatedAllocator.Heap.FindFit` | csapp/chapter9/malloc/flsp.c:144-154 | the search finds a block exactly when a scan of the whole heap would: the first that fits, list by list and from the head of each |
| `SegregatedAllocator.Heap.Malloc` | csapp/chapter9/malloc/flsp.c:144-160 | same abstract step as the other allocator; on the first block that fits, list by list from the heads; the payload is aligned and as big as asked, the block less than 32 bytes bigger; lists and tags agree with the layout again |
| `SegregatedAllocator.Heap.Free` | csapp/chapter9/malloc/flsp.c:162-167 | frees exactly the block; lists and tags agree again |
| `SegregatedAllocator.Heap.Init` | csapp/chapter9/malloc/flsp.c:116-126 | empty lists, prologue, epilogue and one listed chunk |
| `SegregatedAllocator.Heap.ClientWrite` | csapp/chapter9/malloc/flsp.c:33-59 | whatever a client writes into its payload, tags and lists stay in order |
| `SegregatedSession.Session` | csapp/chapter9/malloc/flsp.c:116-167 | any program of malloc, free and writes, up to the first request that neither fits a free block nor the rest of the region: the calls asked are those the program stands for, heap and lists are in order, live blocks are those held, each as big as asked and with every byte last written to it |
| `ServerConnection.LinesAppend` | cplusplus/concurrent/code/base_server_application_framework/framework_server.cpp:108-122 | cutting whole lines off a stream does not change which lines it holds |
| `ServerConnection.LineOf` | cplusplus/concurrent/code/base_server_application_framework/framework_server.cpp:116-118 | text ended by a newline is one line, without the carriage return in front of the newline |
| `ServerConnection.DispatchDecides` | cplusplus/concurrent/code/base_server_application_framework/framework_server.cpp:108-122 | a reading connection submits the first line of its input if it is complete, waits unchanged while there is none, and closes if and only if that line is longer than 4096 |
| `ServerConnection.DispatchServes` | cplusplus/concurrent/code/base_server_application_framework/framework_server.cpp:108-122 | dispatch_line keeps: consumed bytes are exactly the lines submitted, and the bytes sent answer them in order |
| `ServerConnection.SendServes` | cplusplus/concurrent/code/base_server_application_framework/framework_server.cpp:207-219 | sending any part of the output keeps that, and a finished output makes the connection ready to read |
| `ServerConnection.AnswerServes` | cplusplus/concurrent/code/base_server_application_framework/framework_server.cpp:177-189 | handing over the response to the line being processed keeps that |
| `ServerConnection.EventMoves` | cplusplus/concurrent/code/base_server_application_framework/framework_server.cpp:190-228 | one client event, with any flags, any received bytes and any partial send, submits at most one line, only from outside processing, and closes the connection exactly when it is no longer alive |
| `ServerConnection.EventDecides` | cplusplus/concurrent/code/base_server_application_framework/framework_server.cpp:190-227 | an event closes its connection if and only if recv or send failed, the next line is too long, or the stream has ended without one; it submits the next line if and only if the connection is free for it and it is complete |
| `ServerConnection.EventSends` | cplusplus/concurrent/code/base_server_application_framework/framework_server.cpp:207-214 | an event sends the next bytes of the answer, as many as send takes |
| `ServerConnection.AnswersInOrder` | cplusplus/concurrent/code/base_server_application_framework/framework_server.cpp:108-122 | what was sent is a prefix of the responses to the received lines, in arrival order |
| `ServerPeer.Connection.DispatchLine` | cplusplus/concurrent/code/base_server_application_framework/framework_server.cpp:108-122 | the method on the object computes the specified transition, its job and its result |
| `ServerPeer.GatheredPieces` | cplusplus/concurrent/code/base_server_application_framework/framework_server.cpp:195-206 | what recv yields arrives in order, whatever the pieces |
| `ServerPeer.AcceptedIs` | cplusplus/concurrent/code/base_server_application_framework/framework_server.cpp:207-214 | send takes what its answers add up to, until all is sent or one of them is 0 |
| `ServerPeer.Connection.ReceiveAll` | cplusplus/concurrent/code/base_server_application_framework/framework_server.cpp:195-206 | the receive loop gathers all chunks, through interrupts, and notes the end of stream |
| `ServerPeer.Connection.SendAll` | cplusplus/concurrent/code/base_server_application_framework/framework_server.cpp:207-214 | the send loop sends the next bytes of the output, exactly as many as the answers of send take, through interrupts and partial sends |
| `ServerPeer.Connection.ClientEvent` | cplusplus/concurrent/code/base_server_application_framework/framework_server.cpp:190-228 | the whole client branch on the object computes the specified transition |
| `Reactor.AnnouncedKept` | cplusplus/concurrent/code/base_server_application_framework/framework_server.cpp:63-81 | every step keeps: a waiting completion is counted in the eventfd, about to be written, or about to be fetched |
| `Reactor.PoolSoundKept` | cplusplus/concurrent/code/base_server_application_framework/framework_server.cpp:63-97 | every step keeps: a queued job has an awake worker or a pending notify; workers return only when stopping with an empty queue |
| `Reactor.ConservedKept` | cplusplus/concurrent/code/base_server_application_framework/framework_server.cpp:63-97 | every step keeps: the jobs submitted are those queued, those held and those completed, as multisets |
| `Reactor.JoinProgresses` | cplusplus/concurrent/code/base_server_application_framework/framework_server.cpp:88-92 | while joining, an unfinished worker can always step and every worker step brings the join closer |
| `ReactorOrder.FlightKept` | cplusplus/concurrent/code/base_server_application_framework/framework_server.cpp:63-97 | only a submission and a delivery change which connections have a request in flight |
| `ReactorOrder.OrderedByClient` | cplusplus/concurrent/code/base_server_application_framework/framework_server.cpp:190-228 | a client event keeps the per-connection invariant: one request in flight while processing, none while reading or writing |
| `ReactorOrder.OrderedByDeliver` | cplusplus/concurrent/code/base_server_application_framework/framework_server.cpp:177-189 | a delivered completion finds its connection processing the line it answers, or closed |
| `ReactorOrder.OrderedKept` | cplusplus/concurrent/code/base_server_application_framework/framework_server.cpp:158-233 | every step of the loop and of the workers keeps the per-connection invariant |
| `ReactorRuns.NoStrandedCompletion` | cplusplus/concurrent/code/base_server_application_framework/framework_server.cpp:63-96 | in every run no completion is stranded, for any number of workers and any interleaving |
| `ReactorRuns.NoStrandedJob` | cplusplus/concurrent/code/base_server_application_framework/framework_server.cpp:63-97 | in every run no job is stranded behind a lost wake-up |
| `ReactorRuns.OneRequestInFlight` | cplusplus/concurrent/code/base_server_application_framework/framework_server.cpp:108-122 | in every run a connection has at most one request in flight, exactly one while processing |
| `ReactorRuns.SentInOrder` | cplusplus/concurrent/code/base_server_application_framework/framework_server.cpp:177-227 | in every run the bytes sent to a connection are a prefix of the responses to its lines in arrival order |
| `ReactorRuns.DestructorDrains` | cplusplus/concurrent/code/base_server_application_framework/framework_server.cpp:88-92 | when the destructor has joined, every submitted job was completed exactly once; until then it gets closer with every worker step |
| `ReactorRuns.EventsAreServed` | cplusplus/concurrent/code/base_server_application_framework/framework_server.cpp:190-192 | in every run the loop finds a connection object it can serve behind every registered socket |
| `ReactorService.FirstComeFirstServed` | cplusplus/concurrent/code/base_server_application_framework/framework_server.cpp:63-97 | in every run jobs are taken in the order of submission and completions handed out in the order they were made |
| `ReactorService.ClosedOnlyForAReason` | cplusplus/concurrent/code/base_server_application_framework/framework_server.cpp:158-233 | in every run a step closes an open connection if and only if it is the stop of the loop or an event with a reason; a delivery puts the response into its connection, and nothing touches the others |
| `ReactorService.ClosedForAReason` | cplusplus/concurrent/code/base_server_application_framework/framework_server.cpp:158-233 | in every run a closed connection was closed at some step for one of those reasons |
| `ReactorService.LoopTakesWhatComes` | cplusplus/concurrent/code/base_server_application_framework/framework_server.cpp:159-192 | in every run a waiting loop can take any new socket, any event, the eventfd and a stop |
| `ReactorService.EveryRequestIsAnswered` | cplusplus/concurrent/code/base_server_application_framework/framework_server.cpp:63-189 | in every run, left alone the loop and the workers come to rest after finitely many steps in any order, and then no connection waits for an answer |
| `AvlTree.InsertKeepsAvl` | cplusplus/basement/base_code/src/base_stl/map_demo.h:300-337 | put on an AVL tree gives an AVL tree, the map updated at the key, at most one level higher |
| `AvlTree.InsertPivots` | cplusplus/basement/base_code/src/base_stl/map_demo.h:317-333 | put into a balanced tree never rotates through a null child |
| `AvlTree.BalancedIsSafe` | cplusplus/basement/base_code/src/base_stl/map_demo.h:300-337 | so on a balanced tree no level of the recursion meets a null pivot |
| `AvlTree.InsertIsUpdate` | cplusplus/basement/base_code/src/base_stl/map_demo.h:300-337 | put into any strictly ordered tree, where no rotation lacks its pivot, keeps the order and is a map update |
| `AvlTree.InsertExact` | cplusplus/basement/base_code/src/base_stl/map_demo.h:300-337 | wherever no pivot is missing put keeps the stored heights exact |
| `AvlRuns.InsertRunIs` | cplusplus/basement/base_code/src/base_stl/map_demo.h:300-337 | put read as pointer code, with a null dereference as an outcome, is the functional insertion exactly where every rotation finds its pivots |
| `AvlRuns.FailsExactlyWhenTrapped` | cplusplus/basement/base_code/src/base_stl/map_demo.h:317-333 | on any ordered tree with exact heights put dereferences null if and only if, beside the way to the key, a child without an inner child stands two levels above the side that took the key |
| `AvlRuns.LowIsSafe` | cplusplus/basement/base_code/src/base_stl/map_demo.h:317-333 | if every child beside the way that lacks its inner child is at most two levels high, put succeeds, whatever the balances |
| `AvlRuns.FailsExactlyWhenSnared` | cplusplus/basement/base_code/src/base_stl/map_demo.h:317-333 | while no node leans by more than two levels, put fails if and only if it overwrites a childless node whose sibling is three levels high and has no inner child |
| `AvlRuns.RunIsMap` | cplusplus/basement/base_code/src/base_stl/map_demo.h:300-390 | any run of puts and removes on the empty map that does not fail gives the map it describes, in order and with exact heights |
| `AvlRuns.FailsAtATrap` | cplusplus/basement/base_code/src/base_stl/map_demo.h:300-390 | a run fails at a put that is trapped in the tree it finds, and nowhere else |
| `AvlRuns.UnflawedRunsAreSafe` | cplusplus/basement/base_code/src/base_stl/map_demo.h:300-390 | a run that mixes puts with removes that restore balance never fails and keeps an AVL tree |
| `AvlRuns.FirstPutAfterAFlaw` | cplusplus/basement/base_code/src/base_stl/map_demo.h:300-390 | the first put after a remove that left an AVL tree out of balance still succeeds |
| `AvlRuns.InsertCanMissItsPivot` | cplusplus/basement/base_code/src/base_stl/map_demo.h:323-327 | sixteen calls on the empty map, one of them a remove, of which the last put dereferences null and none before |
| `AvlTree.EraseIsRemoval` | cplusplus/basement/base_code/src/base_stl/map_demo.h:339-390 | erase on any strictly ordered tree with exact heights, balanced or not, removes exactly the key and keeps the order |
| `AvlTree.EraseExact` | cplusplus/basement/base_code/src/base_stl/map_demo.h:339-390 | erase on any tree with exact heights keeps them exact |
| `AvlTree.EraseRotatesSafely` | cplusplus/basement/base_code/src/base_stl/map_demo.h:374-387 | with exact heights erase never rotates through a null child, balanced or not |
| `AvlTree.FlawedRotation` | cplusplus/basement/base_code/src/base_stl/map_demo.h:383-387 | the double rotation on a right child of balance 0: the height stays, and one node ends at -2 exactly if the inner child leant left |
| `AvlTree.EraseFromAvl` | cplusplus/basement/base_code/src/base_stl/map_demo.h:339-390 | erase from an AVL tree: the height stays or falls by one as predicted, and the result is an AVL tree if and only if the flawed rotation is not met; otherwise one node is off, at -2 |
| `AvlTree.EraseCanUnbalance` | cplusplus/basement/base_code/src/base_stl/map_demo.h:383-387 | an AVL tree on which erase leaves a node out of balance |
| `AvlTree.InorderLists` | cplusplus/basement/base_code/src/base_stl/map_demo.h:400-406 | the in-order listing holds exactly the bindings of the map |
| `AvlTree.InorderAscends` | cplusplus/basement/base_code/src/base_stl/map_demo.h:400-406 | the in-order listing is strictly ascending |
| `AvlTree.AvlIsBig` | cplusplus/basement/base_code/src/base_stl/map_demo.h:260-289 | an AVL tree of height h holds at least fib(h+2)-1 keys |
| `AvlTree.MillionKeys` | cplusplus/basement/base_code/src/base_stl/map_demo.h:260-289 | an AVL tree of a million keys is at most 28 levels high |
| `AvlTree.PutsBuildAvl` | cplusplus/basement/base_code/src/base_stl/map_demo.h:300-337 | any run of puts gives an AVL tree with that many keys |
| `AvlMap.RightRotate` | cplusplus/basement/base_code/src/base_stl/map_demo.h:270-279 | the pointer writes perform the rotation on the node objects, reusing exactly them |
| `AvlMap.FixInsert` | cplusplus/basement/base_code/src/base_stl/map_demo.h:313-336 | the four rotation cases on node objects, stopping exactly where a null pointer would be read |
| `AvlMap.InsertAt` | cplusplus/basement/base_code/src/base_stl/map_demo.h:300-337 | the recursive method on node objects computes the functional insertion, and stops exactly where that would read a null pointer |
| `AvlMap.EraseAt` | cplusplus/basement/base_code/src/base_stl/map_demo.h:339-390 | the recursive method on node objects computes the functional erasure |
| `AvlMap.Map.Put` | cplusplus/basement/base_code/src/base_stl/map_demo.h:300-337 | not ok exactly when the tree has the trap; otherwise the object stands for the map updated at the key, and a balanced tree stays balanced and never fails |
| `AvlMap.Map.Remove` | cplusplus/basement/base_code/src/base_stl/map_demo.h:339-390 | the object stands for the map without the key |
| `AvlMap.Drive` | cplusplus/basement/base_code/src/base_stl/map_demo.h:300-390 | a map object driven by any puts and removes gets to the end exactly when the run does not fail, and then stands for the map the calls describe |
| `AvlMap.Map.InorderTraversal` | cplusplus/basement/base_code/src/base_stl/map_demo.h:400-406 | the listing is ascending and holds exactly the bindings |
| `BstMap.HungShape` | cplusplus/basement/base_code/src/base_stl/map_demo.h:127-129 | hanging a new leaf under a node with that link empty keeps a tree with mirrored parent links, its nodes in order, the leaf in its place |
| `BstMap.CutShape` | cplusplus/basement/base_code/src/base_stl/map_demo.h:153-168 | splicing out a node with at most one child keeps a tree with mirrored parent links and removes exactly its place |
| `BstMap.Overtakes` | cplusplus/basement/base_code/src/base_stl/map_demo.h:146-151 | moving the successor's binding forward and removing its place removes the erased place |
| `BstMap.InsertUpdates` | cplusplus/basement/base_code/src/base_stl/map_demo.h:104-130 | an insertion at the place of a new key is a map update |
| `BstMap.RemovalRemoves` | cplusplus/basement/base_code/src/base_stl/map_demo.h:142-170 | removing a place removes exactly its key from the map |
| `BstMap.Map.Minimum` | cplusplus/basement/base_code/src/base_stl/map_demo.h:49-56 | the left-most node is the first place of the subtree |
| `BstMap.Map.Successor` | cplusplus/basement/base_code/src/base_stl/map_demo.h:67-78 | the successor walk reaches the next place, or null after the last |
| `BstMap.Map.Iterate` | cplusplus/basement/base_code/src/base_stl/map_demo.h:218-239 | stepping from begin() visits every binding once in ascending key order and then reaches end() |
| `BstMap.Map.Find` | cplusplus/basement/base_code/src/base_stl/map_demo.h:132-140 | finds the node of the key, or null exactly when the map lacks it |
| `BstMap.Map.Descend` | cplusplus/basement/base_code/src/base_stl/map_demo.h:111-124 | the search of insert ends at the key or at the empty link where it belongs |
| `BstMap.Map.Insert` | cplusplus/basement/base_code/src/base_stl/map_demo.h:104-130 | map update, with links, parent links and key order intact |
| `BstMap.Map.Erase` | cplusplus/basement/base_code/src/base_stl/map_demo.h:142-170 | the key is gone, the others stay, with links, parent links and key order intact, including the two-child splice |
| `BstMap.Drive` | cplusplus/basement/base_code/src/base_stl/map_demo.h:104-170 | after any run of insert and erase the tree is valid and stands for the map the calls describe |
| `BstMap.DriveAndList` | cplusplus/basement/base_code/src/base_stl/map_demo.h:218-239 | after any such run a loop from begin() to end() lists that map in ascending key order |
| `HashChains.PushKeeps` | cplusplus/basement/base_code/src/base_stl/umap_demo.h:66-68 | a node pushed to the front of the bucket of its hash: placement kept, one node more |
| `HashChains.PullKeeps` | cplusplus/basement/base_code/src/base_stl/umap_demo.h:132-137 | a node unlinked from its chain: placement kept, one node less |
| `HashChains.RelinkKeeps` | cplusplus/basement/base_code/src/base_stl/umap_demo.h:237-257 | rehashing moves every node to the bucket of its hash under the new count and loses or repeats none |
| `HashChains.RelinkOrder` | cplusplus/basement/base_code/src/base_stl/umap_demo.h:237-257 | after a rehash each bucket holds its nodes in the reverse of the order they came in |
| `HashChains.CountBindings` | cplusplus/basement/base_code/src/base_stl/umap_demo.h:214-217 | a table holds as many bindings as nodes |
| `HashTable.HashTable.Rehash` | cplusplus/basement/base_code/src/base_stl/umap_demo.h:237-257 | the map and the nodes stay; the buckets are those of relinking in iteration order; nothing happens for the same count or 0 |
| `HashTable.HashTable.BucketsByHash` | cplusplus/basement/base_code/src/base_stl/umap_demo.h:50-73 | whatever the calls so far, each node is in the bucket numbered by the hash of its key modulo the bucket count |
| `HashTable.HashTable.Find` | cplusplus/basement/base_code/src/base_stl/umap_demo.h:75-87 | the node of the key with its value, or null exactly when the map lacks it |
| `HashTable.HashTable.Insert` | cplusplus/basement/base_code/src/base_stl/umap_demo.h:50-73 | map update, the element count, the new node at the head of the bucket of its hash, and the doubled bucket count exactly when the load limit is passed |
| `HashTable.HashTable.Erase` | cplusplus/basement/base_code/src/base_stl/umap_demo.h:89-120 | map removal, whether the key was there, the other nodes in their order, the element count, and the halved bucket count exactly under a quarter of the load limit |
| `HashTable.HashTable.Clear` | cplusplus/basement/base_code/src/base_stl/umap_demo.h:132-149 | the empty map and the smallest bucket count |
| `HashTable.HashTable.Advance` | cplusplus/basement/base_code/src/base_stl/umap_demo.h:214-225 | the iterator moves to the next position of the iteration, over empty buckets, and stays at the end |
| `HashTable.HashTable.Iterate` | cplusplus/basement/base_code/src/base_stl/umap_demo.h:151-162 | begin() to end() visits the nodes in iteration order, each once, in ascending hash modulo bucket count |
| `HashTable.HashTable.IterationListsMap` | cplusplus/basement/base_code/src/base_stl/umap_demo.h:151-162 | that order lists every binding of the map exactly once, and the element count is their number |
| `HashRuns.DefaultRule` | cplusplus/basement/base_code/src/base_stl/umap_demo.h:50-120 | the default table doubles its buckets once it holds more elements than buckets, and halves them, to no fewer than 8, once less than a quarter is used |
| `HashRuns.PutKeeps` | cplusplus/basement/base_code/src/base_stl/umap_demo.h:70-72 | an insertion keeps elements within buckets and at least a quarter used, and costs at most three relinks with what it puts by |
| `HashRuns.RemoveKeeps` | cplusplus/basement/base_code/src/base_stl/umap_demo.h:107-113 | so does a removal |
| `HashRuns.AmortisedRehash` | cplusplus/basement/base_code/src/base_stl/umap_demo.h:237-257 | any n calls on the default table relink at most 3n nodes; elements <= buckets; buckets = 8 or elements >= buckets/4 |
| `HashRuns.Perform` | cplusplus/basement/base_code/src/base_stl/umap_demo.h:50-149 | one call on the table object is one step of the cost model |
| `HashRuns.Drive` | cplusplus/basement/base_code/src/base_stl/umap_demo.h:50-149 | the default table object driven by any calls under any hash function follows the model and the 3n bound |
| `Rio.LineEndIs` | csapp/csapp_lib/csapp.c:655-677 | where a line stops is determined by newline, limit and end of stream, whichever is first |
| `Rio.Reader.Refill` | csapp/csapp_lib/csapp.c:593-604 | refilling loses no byte and goes on through interrupts |
| `Rio.Reader.ReadSome` | csapp/csapp_lib/csapp.c:589-615 | delivers the next bytes of buffer plus stream and no others; nothing only at the end |
| `Rio.Reader.Readnb` | csapp/csapp_lib/csapp.c:633-650 | delivers the next n bytes, short only at the end of the stream |
| `Rio.Reader.Readlineb` | csapp/csapp_lib/csapp.c:655-677 | delivers the line up to newline, maxlen-1 bytes or end, NUL-terminated |
| `Rio.Readn` | csapp/csapp_lib/csapp.c:533-553 | the same for the unbuffered read |
| `Rio.Writen` | csapp/csapp_lib/csapp.c:559-577 | writes everything in order, or a prefix on an error |
| `Rio.StreamConserved` | csapp/csapp_lib/csapp.c:589-677 | for any calls, delivered bytes followed by what is left are the stream |
| `Rio.Session` | csapp/csapp_lib/csapp.c:621-677 | any calls on a reader, however the kernel chops the stream, deliver what the stream alone determines |
| `Framing.SendAll` | cplusplus/concurrent/code/base_linux_net_api/net.hpp:99-114 | sends every byte in order, through interrupts and partial sends |
| `Framing.RecvExact` | cplusplus/concurrent/code/base_linux_net_api/net.hpp:116-137 | fills the field from the stream, false only at its end before the first byte, an exception in the middle |
| `Framing.SendFrame` | cplusplus/concurrent/code/base_linux_net_api/net.hpp:139-148 | header and body are written, or nothing for a body that is too large |
| `Framing.RecvFrame` | cplusplus/concurrent/code/base_linux_net_api/net.hpp:150-162 | answers what parsing the stream answers and leaves the rest; false only at a frame boundary |
| `Framing.LengthOfHeader` | cplusplus/concurrent/code/base_linux_net_api/net.hpp:144-155 | the length survives htonl and ntohl |
| `Framing.NetworkOrder` | cplusplus/concurrent/code/base_linux_net_api/net.hpp:144 | the length on the wire has its most significant byte first |
| `Framing.HeaderOfLength` | cplusplus/concurrent/code/base_linux_net_api/net.hpp:155 | any four bytes are the header of the length they are read as |
| `Framing.BehindHeader` | cplusplus/concurrent/code/base_linux_net_api/net.hpp:150-162 | behind a header of up to 1048576 that many bytes are the body, a longer one is an error, and so is a body cut short |
| `Framing.RoundTrip` | cplusplus/concurrent/code/base_linux_net_api/net.hpp:139-162 | decoding the frames of any bodies gives the bodies in order and then the end |
| `Framing.Truncated` | cplusplus/concurrent/code/base_linux_net_api/net.hpp:150-162 | a wire cut anywhere gives exactly the complete frames, then the end at a boundary and an error otherwise |
| `Framing.RecvFrames` | cplusplus/concurrent/code/base_linux_net_api/net.hpp:150-162 | repeated recv_frame computes that decoding, however the stream is chopped |
| `Framing.Transfer` | cplusplus/concurrent/code/base_linux_net_api/net.hpp:139-162 | bodies sent and received under any fragmentation on both sides arrive unchanged |
| `LogQueue.SoundKept` | cplusplus/basement/base_code/src/task/asynchronous_log_sys_demo/logger.h:52-102 | every step keeps the message order and who may be asleep; after shutdown nothing is accepted |
| `LogQueue.AcceptedInOrder` | cplusplus/basement/base_code/src/task/asynchronous_log_sys_demo/logger.h:55-82 | accepted messages are popped exactly once and in order, and written in order |
| `LogQueue.NoneAfterShutdown` | cplusplus/basement/base_code/src/task/asynchronous_log_sys_demo/logger.h:60-95 | after shutdown set the flag no run accepts another message |
| `LogQueue.AcceptedExactly` | cplusplus/basement/base_code/src/task/asynchronous_log_sys_demo/logger.h:55-95 | the messages a run has accepted are exactly those pushed before shutdown set its flag, in order |
| `LogQueue.PushIsAccepted` | cplusplus/basement/base_code/src/task/asynchronous_log_sys_demo/logger.h:55-69 | a push is accepted if and only if the flag is not set, whatever is waiting |
| `LogQueue.EverythingIsWritten` | cplusplus/basement/base_code/src/task/asynchronous_log_sys_demo/logger.h:55-95 | left alone the logger comes to rest after finitely many steps, and then everything pushed before the flag has been written |
| `LogQueue.NeverStranded` | cplusplus/basement/base_code/src/task/asynchronous_log_sys_demo/logger.h:68-95 | the worker is never asleep with work or a shutdown nobody will announce |
| `LogQueue.JoinIsReached` | cplusplus/basement/base_code/src/task/asynchronous_log_sys_demo/logger.h:240-277 | after shutdown the worker can step until it has returned, finitely often, and then every message pushed before shutdown has been written, in order |
| `BoundedBuffer.BalancedKept` | csapp/chapter12/threads/p_and_c_demo.c:15-46 | every step keeps slots + items + engaged threads and the mutex balance |
| `BoundedBuffer.StoredByProducer` | csapp/chapter12/threads/p_and_c_demo.c:20-22 | a write never overwrites an item not yet read |
| `BoundedBuffer.StoredByConsumer` | csapp/chapter12/threads/p_and_c_demo.c:37-39 | a read finds the next item produced |
| `BoundedBuffer.BoundedBufferIsSafe` | csapp/chapter12/threads/p_and_c_demo.c:15-46 | in every run, for any number of items and capacity from 1: the balance, mutual exclusion, consumed is a prefix of produced, and no deadlock |
| `BoundedBuffer.WaitsExactlyWhenItMust` | csapp/chapter12/threads/p_and_c_demo.c:15-46 | in every run the producer waits at the start of a round exactly while the buffer is full of unread rounds, the consumer exactly while there is none, and either for the mutex exactly while the other is inside |
| `RingDeque.BeforeIs` | cplusplus/basement/base_code/src/base_stl/deque_demo.h:56 | the wrapping unsigned index arithmetic finds the place before, while the capacity is at most half the word |
| `RingDeque.RingPushFront` | cplusplus/basement/base_code/src/base_stl/deque_demo.h:52-59 | writing before the front puts the value in front of the sequence |
| `RingDeque.Deque.Resize` | cplusplus/basement/base_code/src/base_stl/deque_demo.h:39-50 | for any new capacity: refused by new, a write behind the new buffer exactly when it is below the count, or the sequence at the start of the new buffer and the indices after it |
| `RingDeque.TightResize` | cplusplus/basement/base_code/src/base_stl/deque_demo.h:39-76 | after a resize to at least the count and a pop_front, the next push_back writes inside the buffer if and only if the capacity was above the count |
| `RingDeque.Deque.PushFront` | cplusplus/basement/base_code/src/base_stl/deque_demo.h:52-59 | the value is prepended, and the buffer doubled exactly when it is full or the deque is empty; a refused buffer leaves the deque as it was |
| `RingDeque.Deque.PushBack` | cplusplus/basement/base_code/src/base_stl/deque_demo.h:61-68 | the value is appended, and the buffer doubled exactly when it is full; a refused buffer leaves the deque as it was |
| `RingDeque.Deque.PopFront` | cplusplus/basement/base_code/src/base_stl/deque_demo.h:70-76 | the first element goes, or the exception exactly on the empty deque |
| `RingDeque.Deque.PopBack` | cplusplus/basement/base_code/src/base_stl/deque_demo.h:78-84 | the last element goes, or the exception exactly on the empty deque |
| `RingDeque.Deque.Front` | cplusplus/basement/base_code/src/base_stl/deque_demo.h:86-98 | the first element, or the exception exactly on the empty deque |
| `RingDeque.Deque.Back` | cplusplus/basement/base_code/src/base_stl/deque_demo.h:100-112 | the last element, or the exception exactly on the empty deque |
| `RingDeque.Drive` | cplusplus/basement/base_code/src/base_stl/deque_demo.h:19-112 | a run of calls of any length from any capacity from 1 on is the modelled run of sequence and capacity |
| `RingDeque.NothingRefused` | cplusplus/basement/base_code/src/base_stl/deque_demo.h:19-84 | while new grants the doublings, the sequence is the one the calls mean and the buffer has doubled once for each push that resizes |
| `RingDeque.GrowsExactlyWhenFull` | cplusplus/basement/base_code/src/base_stl/deque_demo.h:52-68 | a push onto a deque with a free place leaves the buffer as it is, and one onto a full deque doubles it; front pushes on an empty deque aside |
| `RingDeque.BufferFitsPeak` | cplusplus/basement/base_code/src/base_stl/deque_demo.h:52-68 | without a push_front on an empty deque, a buffer longer than at the start has less than twice the places of the most elements held |
| `RingDeque.FrontPairsGrow` | cplusplus/basement/base_code/src/base_stl/deque_demo.h:52-76 | n pairs of push_front and pop_front on an empty deque hold at most one element and double the buffer n times |
| `SharedPtr.DropExact` | cplusplus/basement/base_code/src/base_memory/simple_shared_ptr.h:66-80 | a handle leaving keeps counts exact; the last one deletes the object and the block |
| `SharedPtr.DropByCount` | cplusplus/basement/base_code/src/base_memory/simple_shared_ptr.h:66-80 | the test of the decremented count deletes exactly when the leaving handle was the last |
| `SharedPtr.MoveIs` | cplusplus/basement/base_code/src/base_memory/simple_shared_ptr.h:118-124 | moving is sharing and then leaving |
| `SharedPtr.WhatHandlesReach` | cplusplus/basement/base_code/src/base_memory/simple_shared_ptr.h:85-175 | after each operation the named handle is on the object handed over or on what the other handle was on, a moved-from handle is null, and no other handle has changed |
| `SharedPtr.Memory.Release` | cplusplus/basement/base_code/src/base_memory/simple_shared_ptr.h:66-80 | release on the fields of handle and block is the handle leaving |
| `SharedPtr.Memory.Copy` | cplusplus/basement/base_code/src/base_memory/simple_shared_ptr.h:98-103 | one more handle on the same block |
| `SharedPtr.Memory.Assign` | cplusplus/basement/base_code/src/base_memory/simple_shared_ptr.h:105-116 | leave, then share; nothing on self-assignment |
| `SharedPtr.Memory.MoveAssign` | cplusplus/basement/base_code/src/base_memory/simple_shared_ptr.h:126-138 | leave, then take over; nothing on self-assignment |
| `SharedPtr.Memory.FromRaw` | cplusplus/basement/base_code/src/base_memory/simple_shared_ptr.h:85-90 | null for a null pointer, otherwise a new block with count 1, whatever pointer it is |
| `SharedPtr.Memory.Reset` | cplusplus/basement/base_code/src/base_memory/simple_shared_ptr.h:164-175 | leave, then adopt the new pointer, whatever it is, or nothing for the pointer already held |
| `SharedPtr.Memory.UseCount` | cplusplus/basement/base_code/src/base_memory/simple_shared_ptr.h:158-162 | the number of handles on the block, 0 for a null handle |
| `SharedPtr.NothingForgotten` | cplusplus/basement/base_code/src/base_memory/simple_shared_ptr.h:66-175 | every operation keeps the counts exact, records what it hands over, undoes no deletion, and leaves every block either live or gone once |
| `SharedPtr.HandedKeptDeleted` | cplusplus/basement/base_code/src/base_memory/simple_shared_ptr.h:66-175 | after any run an object has been deleted as often as it was handed over, less the blocks that keep it |
| `SharedPtr.DeletedExactlyWhenUnreachable` | cplusplus/basement/base_code/src/base_memory/simple_shared_ptr.h:66-96 | after any run that hands over each pointer once, an object is deleted once if no handle reaches it and not at all if one does |
| `SharedPtr.AllDeletedAtTheEnd` | cplusplus/basement/base_code/src/base_memory/simple_shared_ptr.h:66-175 | when no handle is left, every object has been deleted as often as it was handed over, none twice if and only if none was handed over twice |
| `SharedPtr.HandedOverTwice` | cplusplus/basement/base_code/src/base_memory/simple_shared_ptr.h:85-96 | two handles from the same pointer: when one leaves, the other is on a deleted object |
| `SharedPtr.Drive` | cplusplus/basement/base_code/src/base_memory/simple_shared_ptr.h:66-175 | any program of these operations on the fields of handles and blocks is the modelled run |

## Left out

- `ImplicitAllocator.Heap.Malloc`: requests whose adjusted size is 2^32 bytes or more are excluded. There the int of mem_sbrk and the 32-bit tags keep the size modulo 2^32 (`ImplicitAllocator.IncrementIs`), so the source can hand out a block smaller than asked for.
- `ImplicitAllocator.Heap.Realloc`: the same bound.
- `HeapSession.Session`: the same bound on its requests; a program that gives back, resizes or writes memory it does not hold is outside the model, such an operation is left alone.
- `ImplicitAllocator.Heap.FindFit`: models the first-fit branch; next fit is switched off in the source.
- `SegregatedAllocator.Heap.Malloc`: mem_sbrk of flsp.c has no limit and writes past its 20 MB region; the model asks its caller to stay inside, so this allocator never answers null for a request above 0. `SegregatedSession.Session` stops at the first request outside.
- Pointers of flsp.c are one 32-bit word, the width its PRED and SUCC macros assume; a 64-bit build, where the two links overlap, is not modelled. Its debug prints are left out.
- `AvlMap.Map.Put`: nothing is said about the nodes after a put that reads a null pointer.
- `AvlRuns.FailsExactlyWhenTrapped`: on trees that lean by more than two levels the condition mentions the height of the side that took the key; a condition on the tree before the call is given for trees that lean by at most two (`AvlRuns.FailsExactlyWhenSnared`) and, one way, for all (`AvlRuns.LowIsSafe`).
- `AvlMap` and `BstMap`: keys and values of the node objects are integers; the tree functions of `AvlTree` take any value type. `operator[]` is find and insert and is not modelled separately.
- Deleting tree nodes, hash nodes and deque buffers: they leave the structure; memory that is given back is not tracked, except in `SharedPtr`.
- `HashTable.HashTable.Insert`: size_t overflow of the bucket count is not modelled; the load factor is a real number.
- `RingDeque.Drive`: how many elements `new` grants is a parameter, below half the range of size_t, so that a doubled capacity does not wrap; a capacity of 0 is excluded, which the source would divide by.
- `RingDeque.Deque.Resize`: nothing is said about a deque whose resize wrote behind the new buffer. The deque's iterator is left out: it adds the front value where it means the front index.
- `Reactor`: exceptions out of epoll calls, signals other than the stop flag, the event masks, the listener, and the liveness of a connection whose peer has half closed are left out. A batch of events is any sequence of events.
- `Rio.Reader.Readlineb`: `maxlen` 0, for which the source writes a NUL past an empty buffer, is excluded. The wrappers of csapp.c outside Rio are left out.
- `Framing.RecvFrame`: the different exceptions are one error.
- `LogQueue`: formatting, time stamps and the sinks' files are left out; a message is written in one step.
- `SharedPtr`: used by one thread; the decrement and the test of the count are separate operations in the source, so its use from several threads is not modelled. Operators that only read a handle are left out.
- my_realloc.cpp, tlv_session.cpp, SessionManager, the design-pattern demos and the generated code are not modelled.
