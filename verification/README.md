# EDN event library: a verified model

EDN is an event library in C++: connections with an input and an output buffer, epoll with one-shot registrations, a
timer group, an index of events and a thread pool. This project models those parts in Dafny and proves what they keep
over every run. `dafny verify dfyconfig.toml` checks all of it.

## How it is built

Each component comes twice. A `...Spec` module says on values what every operation makes of the state, and carries
the theorems. A class beside it does the same in place, with the fields, the links and the loops of the C++, and each
of its methods is proved to do what its function says.

| component | on values | in place |
|---|---|---|
| buffer: allocator, byte FIFO, framing | `Arena`, `BufferSpec`, `RecvSpec`, `Framing`, `BufferRuns`, `RecvEnds`, `SourceInput`, `SourceOutput` | `EdnBuffer.dfy` |
| connection, epoll re-arming, connect timeout | `ConnectSpec`, `ConnectRuns` | `EdnConnect.dfy` |
| timer group | `TimerSpec` | `TimerGroup.dfy` |
| thread pool | `PoolSpec` | `ThreadPool.dfy` |
| event index | `ContextSpec` | `Context.dfy` |
| a connection and its entry in the index | `ConnectIndex` | |

## As written and repaired

In several places the code does not do what its comments, its interface and the code around it promise. The model keeps
the code as it is, and beside it, in the same definitions, a repaired form chosen by a flag. Whatever holds of both is
proved of both. A promise that the code as written breaks has a concrete run that breaks it, and a lemma that says
exactly when it is met. Where a node reaches past the array the run ends: it is marked as overrun, no theorem says
anything of what follows, and the methods of the class promise nothing after it.

Buffer, `cfg.fixed`:

- `BufferNode::Write` copies to `data + offset`, onto the oldest live bytes; repaired: to `offset + len`.
- `__GetNextBufferNode` has no case for `head_ == tail_` and answers `tail_ + 1`, inside the tail's data; repaired: one
  node is the linear case, and the place is the end of the tail. As written no second node ever comes about, so that a
  receive which fills the one node to its end is answered with the not-enough error and hands nothing over.
- `Write` fills the tail before it knows whether a second node fits, initialises that node with the length of the whole
  string, and asserts on a full tail; repaired: look first, size the node for the rest, let a full tail take nothing.
- `RecvAtMost` does not count the node it opens, so that its space check can come to admit a first node longer than the
  array; repaired: count it.
- `RecvAtMost` tests `len == capacity` for a full node, and only after receiving, so that a node which has lost bytes
  from its front never looks full and the next receive into it looks like a closed peer; repaired: test that no space is
  left, and before the first receive as well. Where there is no place for another node then, nothing is received and
  what is complete is handed over.
- `__PopData` zeroes `len` before it subtracts it from `size_`; repaired: subtract first.

Connection, `restore`: the write task does not ask for WRITE again after a partial send, although the comment in
`ConvertEvents` says that each callback does; repaired: it does.

Thread pool, `locked`: the destructor sets `stop` without the mutex; repaired: under the mutex.

Index, `fixed`: `ActiveEvent` tells signals apart by `GetFd() != GetSigFd()`, which holds for them too, and then uses
the null result of the cast; repaired: by kind.

Not repaired, and stated as they are: `RecvAtMost` hands nothing over unless it ends in would-block, does not compare
the length that the end callback announces with what has arrived, and offers a message again for as long as the handler
takes nothing of it; the connect task asks for READ as well (so two read callbacks can meet) and uses `timer_`
unchecked; a timer that has expired when it is added fires once and never enters the group, persistent or not;
`Dispatch` reads the clock again for its answer; `AddEvent` under a key in use; `DelEvent` of an absent key, and the
close paths of a connection that lead to it.

## What is assumed

- A node that is initialised anew has null links. `BufferNode::Init` does not clear them; the model does, in both forms,
  because otherwise nothing could be said of any walk along the chain.
- Where it says so, nodes are longer than their header; the configured minimum is 4096 bytes.
- `sizeof(BufferNode)` is 48 and `size_t` has 64 bits; addresses are offsets into the array, without alignment.
- Sockets answer by a finite script: bytes taken or delivered, would block, interrupted, closed, failed. When the script
  is used up the socket would block.
- The data handler takes between 1 byte and the whole message, and the end callback answers at most the bytes it is
  shown; what happens otherwise is `Framing.OverrunsIffMoreIsExpected` and `Framing.AlwaysEndsIffPatient`. Both may
  depend on all that came before (the handler) or on the bytes (the end callback). `assert` is active.
- A call of `RecvAtMost` or `Write` overruns when the node it opens reaches past the array; whether so many bytes then
  really come is up to the socket.
- Steps of a connection are atomic: a delivery with its conversion, the handler, one task with its callback and its
  re-registration, one call of the API. The C++ locks none of these as a whole; `ConnectSpec.StaleAddLosesWrite` shows
  what a re-registration cut in two would lose.
- A step of the thread pool is what one thread does while it holds the mutex, or between two such stretches. Blocked
  workers may wake up without cause.
- Timers are added once, enabled, with a UUID of their own. Time is an unbounded integer. Of several timers with the
  earliest expiry any may be on top of the heap.
- List iterators stay valid until their element is erased, and are not used for another element.

## Model

| member | source | states |
|---|---|---|
| Arena.NextIsSafe | entry/src/main/cpp/src/buffer/edn_buffer.cpp:302-317 | Arena safety: every place the repaired allocator answers is inside the array, meets no node of the chain (headers included), and keeps the ring order, wrapped or not |
| Arena.NextRefusesIffFull | entry/src/main/cpp/src/buffer/edn_buffer.cpp:302-317 | The repaired allocator refuses exactly if no place is next in ring order and clear, or the one that is is the whole stretch in front of the head, which the strict comparison leaves unused |
| Arena.LayoutIsDisjoint | entry/src/main/cpp/src/buffer/edn_buffer.cpp:302-317 | In a chain laid out in ring order the extents of any two nodes are disjoint |
| Arena.SourceNeverExtendsOneNode | entry/src/main/cpp/src/buffer/edn_buffer.cpp:307-316 | As written the allocator refuses whenever the chain has one node, so no second node ever comes about |
| Arena.SourcePlaceMeetsTail | entry/src/main/cpp/src/buffer/edn_buffer.cpp:307-314 | As written the place answered behind the tail is clear of the tail exactly if the tail has no data area |
| Arena.SpaceNeverUnderflows | entry/src/main/cpp/src/buffer/edn_buffer.cpp:72-72 | For every laid-out chain, live bytes plus all headers are at most the capacity, so the unsigned subtraction of either space check cannot go below zero while the counters are right |
| BufferSpec.WriteKeepsValid | entry/src/main/cpp/src/buffer/edn_buffer.cpp:67-114 | Write keeps the layout (repaired: any chain in ring order; as written: one node at the start) and adds no empty node, whatever it answers |
| BufferSpec.WriteIsAllOrNothing | entry/src/main/cpp/src/buffer/edn_buffer.cpp:67-114 | Repaired Write appends the whole string to the contents, in one node or split over two, or answers the not-enough error and changes nothing; both counters stay right |
| BufferSpec.RepairedRefusesIff | entry/src/main/cpp/src/buffer/edn_buffer.cpp:67-114 | Repaired, with right counters, a write is refused exactly if its node is longer than the capacity less the live bytes, or the tail has too little space and the allocator no place for the rest |
| BufferSpec.SourceAppendsIffEmpty | entry/src/main/cpp/src/buffer/edn_buffer.cpp:22-29 | As written, successful writes of a given length append their bytes, for all values of them, exactly if the chain was empty: otherwise they overlay the oldest live bytes |
| BufferSpec.SourceWriteIntoEmpty | entry/src/main/cpp/src/buffer/edn_buffer.cpp:76-86 | As written, a successful write into an empty chain appends exactly its bytes |
| BufferSpec.SourceFirstWrite | entry/src/main/cpp/src/buffer/edn_buffer.cpp:71-86 | As written, a write into an empty chain is refused without effect, runs over the array, or puts the whole string into the one node and counts it, by the length of its node, the space computed and the capacity |
| BufferSpec.SourceWriteOverlays | entry/src/main/cpp/src/buffer/edn_buffer.cpp:87-102 | As written, a write that reaches a tail with space, accepted or refused late, copies the first bytes of the string, as many as there is space for, to the start of the live bytes, and changes nothing else in the array; which bytes are then sent next, for every string |
| BufferSpec.SourceRefusalIsCleanIffChecked | entry/src/main/cpp/src/buffer/edn_buffer.cpp:93-102 | As written, a refused write leaves the buffer unchanged exactly if the first space check refused it; the later refusal has put uncounted bytes into the tail |
| EdnBuffers.EdnBuffer.Write | entry/src/main/cpp/src/buffer/edn_buffer.cpp:67-114 | The linked nodes and the array end up exactly as BufferSpec.Write says, with the same answer, as written and repaired; behind an overrun nothing is promised |
| EdnBuffers.EdnBuffer.GetNextBufferNode | entry/src/main/cpp/src/buffer/edn_buffer.cpp:302-317 | Reading only the pointers head_ and tail_, answers what Arena.Next answers for the whole chain |
| EdnBuffers.EdnBuffer.WriteTail | entry/src/main/cpp/src/buffer/edn_buffer.cpp:22-29 | BufferNode::Write on the tail: bytes onto or behind the live ones, counted; no other node and no other byte changes |
| EdnBuffers.BufferNode.Init | entry/src/main/cpp/src/buffer/edn_buffer.cpp:14-20 | An empty node whose data area is the rest behind the header |
| EdnBuffers.CopyTo | entry/src/main/cpp/src/buffer/edn_buffer.cpp:25-25 | memcpy: the bytes at the place are replaced, all others kept |
| BufferSpec.SendTakesPrefix | entry/src/main/cpp/src/buffer/edn_buffer.cpp:255-300 | Bytes sent followed by bytes still chained are the contents before, for every chain and every sequence of partial sends, interruptions, would-block and failure |
| BufferSpec.SendKeepsBooks | entry/src/main/cpp/src/buffer/edn_buffer.cpp:282-296 | SendAtMost keeps size_ and buffer_node_num_ equal to the bytes and the nodes of the chain |
| BufferSpec.SendOnce | entry/src/main/cpp/src/buffer/edn_buffer.cpp:264-286 | The socket is offered the live bytes of the first node, and what it takes leaves the front of the contents |
| BufferSpec.SendJoins | entry/src/main/cpp/src/buffer/edn_buffer.cpp:264-297 | While the socket neither blocks nor fails, what it does next is done to what is left, and an interruption changes nothing |
| BufferSpec.SendFailsIff | entry/src/main/cpp/src/buffer/edn_buffer.cpp:258-299 | SendAtMost fails exactly if the socket does so with bytes left and before it would block; the bytes sent are those that left the chain |
| BufferSpec.SentOfOneNode | entry/src/main/cpp/src/buffer/edn_buffer.cpp:264-297 | With one node, a socket that goes on takes the sum of what it asks for, as far as it is there |
| EdnBuffers.EdnBuffer.SendAtMost | entry/src/main/cpp/src/buffer/edn_buffer.cpp:255-300 | The loop over the linked nodes sends and leaves exactly what BufferSpec.Send says; the answer is the error code exactly if the socket fails with bytes left and before it would block, and otherwise the number of bytes that left the chain |
| EdnBuffers.EdnBuffer.ServeOutput | entry/src/main/cpp/src/buffer/edn_buffer.cpp:67-300 | Every sequence of writes and sends carried out on the object does what the run of BufferRuns does, up to an overrun: the bytes that leave it followed by those chained are those accepted, repaired always and as written over clean writes |
| BufferRuns.OutputIsFifo | entry/src/main/cpp/src/buffer/edn_buffer.cpp:67-114 | Repaired, over every interleaving of Write and SendAtMost: no write runs over the array, bytes sent followed by bytes chained are the concatenation of the successful writes, and the counters are right |
| SourceOutput.SourceOutputIsFifoIffClean | entry/src/main/cpp/src/buffer/edn_buffer.cpp:67-114 | As written, a run keeps that law and stays inside the array, for all strings of the given lengths, exactly if each of its writes finds the chain empty and fits the array, or is refused by the first space check or by the assertion on a full tail |
| SourceOutput.CleanRunIsFifo | entry/src/main/cpp/src/buffer/edn_buffer.cpp:67-114 | As written, the law over every run of such writes and any sends |
| SourceOutput.BrokenForGood | entry/src/main/cpp/src/buffer/edn_buffer.cpp:255-300 | Once an accepted byte has been overlaid, or an uncounted one added, or the array overrun, no later write of the overlaying value and no send mends the output |
| SourceOutput.SourceOutputIsNotFifo | entry/src/main/cpp/src/buffer/edn_buffer.cpp:22-29 | As written, with the default sizes, two short writes in a row break that law |
| RecvSpec.FillTailAppends | entry/src/main/cpp/src/buffer/edn_buffer.cpp:131-179 | The receive loop appends exactly the received bytes to the contents, over as many nodes as it takes, and keeps the layout |
| RecvSpec.PopSplits | entry/src/main/cpp/src/buffer/edn_buffer.cpp:319-355 | __PopData removes exactly the first len bytes of the contents, over as many nodes as they span, and keeps the layout |
| RecvSpec.PopKeepsSuffix | entry/src/main/cpp/src/buffer/edn_buffer.cpp:319-355 | Popping bytes of the first nodes leaves the nodes not yet copied as they are, which is why the chain may be popped while it is walked |
| RecvSpec.SourcePopKeepsSizeIffBoundary | entry/src/main/cpp/src/buffer/edn_buffer.cpp:323-328 | As written, popping keeps size_ in step with the chain exactly if it stops between two nodes |
| RecvSpec.PopKeepsBooks | entry/src/main/cpp/src/buffer/edn_buffer.cpp:319-355 | Repaired, popping keeps size_ in step with the chain |
| RecvSpec.DrainWalks | entry/src/main/cpp/src/buffer/edn_buffer.cpp:190-197 | After handing over and popping, the chain still holds the window tmp_buf[offset..offset+len] followed by the nodes not yet copied |
| RecvSpec.WalkIsFeed | entry/src/main/cpp/src/buffer/edn_buffer.cpp:182-201 | The consumption loop calls the handler as parsing node content after node content does, and leaves in the chain exactly the unconsumed window |
| RecvSpec.RecvConserves | entry/src/main/cpp/src/buffer/edn_buffer.cpp:116-202 | As written and repaired, for every end callback with m <= len, every handler taking 1 to m bytes and every way a call can end but running over the array: consumed followed by buffered is what was consumed, buffered and received |
| RecvSpec.RecvIsParse | entry/src/main/cpp/src/buffer/edn_buffer.cpp:116-202 | A call that ends in would-block makes the handler's calls the greedy parse of everything buffered and received, for a stable end callback |
| RecvSpec.SourceRecvIsOneParse | entry/src/main/cpp/src/buffer/edn_buffer.cpp:116-202 | As written, the same for every end callback, because there is one node at most |
| RecvSpec.RecvBooks | entry/src/main/cpp/src/buffer/edn_buffer.cpp:163-165 | Repaired, both counters stay right and no call runs over the array; as written, size_ never falls below what the chain holds, short of an overrun |
| RecvSpec.RecvCounts | entry/src/main/cpp/src/buffer/edn_buffer.cpp:131-138 | A call that opens the chain puts buffer_node_num_ right once repaired and one too low as written, every other call short of an overrun leaves it as far off as it is; only the tail can come to be empty |
| RecvSpec.RecvCovers | entry/src/main/cpp/src/buffer/edn_buffer.cpp:182-188 | All copies into tmp_buf fit its size_ bytes |
| EdnBuffers.EdnBuffer.RecvAtMost | entry/src/main/cpp/src/buffer/edn_buffer.cpp:116-202 | Receiving and consuming over the linked nodes and the temporary array does exactly what RecvSpec.Recv says; a call that drains answers the number of bytes consumed and buffered more than before, and from what is there before the call 0, the system error or not-enough; behind an overrun nothing is promised |
| EdnBuffers.EdnBuffer.ServeInput | entry/src/main/cpp/src/buffer/edn_buffer.cpp:116-202 | Every sequence of calls carried out on the object does what the run of BufferRuns does, up to an overrun: no byte is lost, and parsing what is buffered completes the parse of the stream; with size_ short of 2^64 bytes the copies of every call fit |
| EdnBuffers.EdnBuffer.FillChain | entry/src/main/cpp/src/buffer/edn_buffer.cpp:139-179 | The receive loop over the linked nodes does what RecvSpec.FillTail says, and every node of the chain was there or is new |
| EdnBuffers.EdnBuffer.GrowChain | entry/src/main/cpp/src/buffer/edn_buffer.cpp:166-177 | A full tail gets a linked successor where the allocator says, or the loop ends |
| EdnBuffers.EdnBuffer.Turn | entry/src/main/cpp/src/buffer/edn_buffer.cpp:186-199 | One pass of the outer loop: the node is copied behind the window, messages are handed over, the window moves on |
| EdnBuffers.EdnBuffer.MoveWindow | entry/src/main/cpp/src/buffer/edn_buffer.cpp:189-197 | After the inner loop the window tmp_buf[offset..offset+len] is what the handler left of it, and the outer loop stands before the nodes not yet copied |
| EdnBuffers.EdnBuffer.HandOver | entry/src/main/cpp/src/buffer/edn_buffer.cpp:190-197 | The inner loop: messages handed over and popped, the nodes not yet copied untouched |
| EdnBuffers.EdnBuffer.DropHead | entry/src/main/cpp/src/buffer/edn_buffer.cpp:287-294 | Unlinks the head: the chain loses its first node, both ends and all links stay right |
| EdnBuffers.EdnBuffer.Consume | entry/src/main/cpp/src/buffer/edn_buffer.cpp:182-201 | The loop that copies node after node while __PopData unlinks them keeps its copies inside tmp_buf and does what RecvSpec.Walk says from the first node on |
| EdnBuffers.EdnBuffer.PopData | entry/src/main/cpp/src/buffer/edn_buffer.cpp:319-355 | __PopData on the linked nodes does what RecvSpec.Pop says and leaves a suffix of the chain, links mutual from head_ to tail_ |
| Framing.ParseConserves | entry/src/main/cpp/src/buffer/edn_buffer.cpp:190-197 | The inner loop loses and invents no byte, revises no earlier call, and stops where no complete message is left |
| Framing.ParseCallsAreDue | entry/src/main/cpp/src/buffer/edn_buffer.cpp:190-197 | Each call of the handler is for the first complete message of what the calls before it left, with what the handler takes of it then |
| Framing.ParseSplit | entry/src/main/cpp/src/edn.h:100-101 | With an end callback that does not change its mind, parsing a stream is parsing a prefix and then the rest behind what was left over |
| Framing.FramedSafelyIff | entry/src/main/cpp/src/edn.h:97-101 | For every end callback: however a stream is cut, the loop stays inside its window and the handler's calls and the rest are those of the stream in one piece, exactly if the callback answers what it is shown at most and is stable under more bytes |
| Framing.DefaultIsNotSegmentationFree | entry/src/main/cpp/src/buffer/edn_buffer.cpp:31-45 | The default callbacks are well behaved and not independent of the cutting |
| Framing.DefaultTakesAll | entry/src/main/cpp/src/buffer/edn_buffer.cpp:31-45 | The default callbacks take all that is there as one message |
| RecvEnds.DefaultLeavesNothing | entry/src/main/cpp/src/buffer/edn_buffer.cpp:31-45 | Both forms: with them a call that ends in would-block leaves nothing buffered |
| BufferRuns.StreamIsParsedOn | entry/src/main/cpp/src/buffer/edn_buffer.cpp:129-201 | Over every run, however its calls end short of an overrun, and for every stable end callback: parsing what is still buffered, behind the handler's calls so far, is the greedy parse of the whole received stream |
| BufferRuns.ParsedWhereNothingIsLeft | entry/src/main/cpp/src/buffer/edn_buffer.cpp:129-201 | So wherever nothing complete is buffered the handler's calls are that parse |
| BufferRuns.FramingIgnoresSegmentation | entry/src/main/cpp/src/buffer/edn_buffer.cpp:129-201 | After every run whose last call ends in would-block, whatever the earlier ones did short of an overrun, the handler's calls are the greedy parse of the whole received stream and what stays buffered holds no complete message, however the bytes fell on calls, recv and nodes |
| BufferRuns.SourceRunIsFeed | entry/src/main/cpp/src/buffer/edn_buffer.cpp:129-201 | As written, for every end callback, the handler's calls over a run are one parse per RecvAtMost call |
| BufferRuns.InputConserves | entry/src/main/cpp/src/buffer/edn_buffer.cpp:116-202 | Over every run, however its calls end short of an overrun, consumed followed by buffered is exactly what was received |
| BufferRuns.InputKeepsBooks | entry/src/main/cpp/src/buffer/edn_buffer.cpp:319-355 | Repaired, over every run no call runs over the array, size_ and buffer_node_num_ agree with the chain, and only the tail can be empty |
| BufferRuns.SourceCountIsRightIffNeverOpened | entry/src/main/cpp/src/buffer/edn_buffer.cpp:131-138 | As written, after a run short of an overrun buffer_node_num_ is too low by the number of calls that opened the chain, so it is right exactly if none did |
| RecvEnds.OverrunsIff | entry/src/main/cpp/src/buffer/edn_buffer.cpp:121-138 | Both forms: a call runs over the array exactly if the chain is empty and the node it asks for is longer than the array and passes the space check |
| RecvEnds.CanOverrunIff | entry/src/main/cpp/src/buffer/edn_buffer.cpp:121-138 | So there is such a call exactly if the chain is empty and the space computed exceeds the array and suffices for the smallest node |
| SourceInput.SourceRunCanOverrunIff | entry/src/main/cpp/src/buffer/edn_buffer.cpp:121-138 | As written, after every run from an empty buffer: some next call does so exactly if the chain is empty and the capacity less what leaked plus the headers never counted, modulo 2^64, exceeds the array and suffices for the smallest node |
| SourceInput.SourceOverrunsIffLeaksLess | entry/src/main/cpp/src/buffer/edn_buffer.cpp:121-138 | Where nothing wraps round: exactly if the chain is empty and less has leaked than the headers of the nodes opened and not counted |
| SourceInput.OverrunHappens | entry/src/main/cpp/src/buffer/edn_buffer.cpp:121-143 | With the default sizes: one message of 1000 bytes, taken whole, and then 81920 bytes ready, for which a node of 81968 bytes is opened in the array of 81920 |
| RecvEnds.SourceRecvEnds | entry/src/main/cpp/src/buffer/edn_buffer.cpp:121-179 | As written, the answer of every call and the bytes it receives, for every script of the socket: refused, over the array, or from the offset, length and capacity of the node and the bytes offered |
| RecvEnds.SourceMisreadsFullIff | entry/src/main/cpp/src/buffer/edn_buffer.cpp:121-166 | As written, with the peer still there, a call answers that it has closed exactly if it gets as far as receiving, more is offered than the node has space for, and the node has lost bytes from its front or has no space at all |
| RecvEnds.SourceStuckUntilDry | entry/src/main/cpp/src/buffer/edn_buffer.cpp:140-162 | As written, a full node keeps every call that finds bytes from receiving or handing over anything, until one finds none |
| RecvEnds.AnnouncedIsReceived | entry/src/main/cpp/src/buffer/edn_buffer.cpp:119-177 | A call that opens a node, or repaired has a place for one, receives all that is there if that is no more than announced; as written it then ends in not-enough, handing nothing over, exactly if all that was announced came and it is more than the smallest node has space for |
| SourceInput.LongBurstIsHeldBack | entry/src/main/cpp/src/buffer/edn_buffer.cpp:166-170 | As written, default sizes: 5000 bytes announced and received are answered with not-enough, no message is handed over, and the next calls that find bytes do nothing |
| RecvEnds.StuckForGoodIff | entry/src/main/cpp/src/buffer/edn_buffer.cpp:139-201 | Both forms: with a full tail and no place for another node, no run ever receives or hands over anything more exactly if nothing buffered is complete or the space check refuses the smallest node |
| RecvEnds.RepairedRecvEnds | entry/src/main/cpp/src/buffer/edn_buffer.cpp:139-179 | Repaired: a call receives everything offered and answers as the socket, unless that is as much as the tail and the nodes that can follow it hold: then exactly so much, and the not-enough error; without any room nothing, and what is complete is handed over |
| RecvEnds.RepairedNeverMisreads | entry/src/main/cpp/src/buffer/edn_buffer.cpp:159-162 | Repaired, over every run and whatever the counters say, a call answers that the peer has closed only if it has |
| RecvEnds.RecvEndsAs | entry/src/main/cpp/src/buffer/edn_buffer.cpp:116-179 | Both forms: how a call ends and the bytes it receives are functions of the buffer, the bytes ready and the socket as they are before it |
| RecvEnds.AnswerIsGain | entry/src/main/cpp/src/buffer/edn_buffer.cpp:163-201 | The bytes received by a call are what is consumed and buffered more than before |
| RecvEnds.LeavesMessageIff | entry/src/main/cpp/src/buffer/edn_buffer.cpp:145-177 | Both forms, from what is there before the call: it leaves a complete message behind exactly if it will end otherwise than in would-block and there is one in what is buffered and what it will receive |
| RecvEnds.PeerCloseDropsMessages | entry/src/main/cpp/src/buffer/edn_buffer.cpp:159-162 | Both forms, default sizes and callbacks: three bytes and a closing peer leave the three bytes unhandled |
| SourceInput.StuckHappens | entry/src/main/cpp/src/buffer/edn_buffer.cpp:140-177 | As written, default sizes, messages of 3000 bytes: the second call takes the full node for a closed peer, and no later run receives or hands over anything |
| SourceInput.SourceRecvDrifts | entry/src/main/cpp/src/buffer/edn_buffer.cpp:182-198 | As written, one call short of an overrun puts size_ off by exactly the bytes the handler took but for the piece that emptied the chain, modulo 2^64 |
| SourceInput.LeaksNothingIff | entry/src/main/cpp/src/buffer/edn_buffer.cpp:190-197 | As written, a call leaks nothing exactly if, from what is there before it, it will hand nothing over or the handler will take all that is buffered and received in one piece |
| SourceInput.SourceSizeIsRightIff | entry/src/main/cpp/src/buffer/edn_buffer.cpp:326-327 | As written, over every run short of an overrun, size_ is right exactly if before each call that condition held |
| SourceInput.RecvDriftsBy | entry/src/main/cpp/src/buffer/edn_buffer.cpp:182-198 | Both forms: a call moves size_ away from the chain by at most the capacity, as written by exactly what it leaks, repaired not at all |
| RecvEnds.RefusedIff | entry/src/main/cpp/src/buffer/edn_buffer.cpp:119-125 | Both forms: a call is refused whatever the socket has exactly if what is announced with a header, or the smallest node, is more than the capacity less size_ and the headers counted, modulo 2^64 |
| SourceInput.RefusedForGoodIff | entry/src/main/cpp/src/buffer/edn_buffer.cpp:121-125 | Both forms: every call is refused and changes nothing exactly if that is so of the smallest node |
| SourceInput.RefusedRun | entry/src/main/cpp/src/buffer/edn_buffer.cpp:121-125 | And then no run changes anything |
| SourceInput.DriftStopsInput | entry/src/main/cpp/src/buffer/edn_buffer.cpp:121-125 | As written, default sizes: after 82 bursts of two messages nothing is buffered, size_ is 82000 and every call is refused |
| Framing.OverrunsIffMoreIsExpected | entry/src/main/cpp/src/buffer/edn_buffer.cpp:189-195 | For every end callback: the inner loop gives the handler bytes beyond its window exactly if parsing with the comparison in place leaves a beginning for which more is announced, and by how much |
| Framing.NeverOverrunsIffBounded | entry/src/main/cpp/src/edn.h:100-101 | No stream makes it do so exactly if the callback never answers more than it is shown |
| Framing.GuardedIsSegmentationFree | entry/src/main/cpp/src/edn.h:100-101 | With the comparison in place, a callback that answers the expected length and does not change its mind makes framing independent of segmentation |
| Framing.AlwaysEndsIffPatient | entry/src/main/cpp/src/buffer/edn_buffer.cpp:190-197 | The inner loop ends on every stream, whatever was handed over before, exactly if a handler that is offered the same complete message again and again takes some of it at last |
| Framing.AlwaysEndsIffNeverZero | entry/src/main/cpp/src/edn.h:97-98 | For a handler that answers by the message alone: exactly if it never answers 0 to a complete message |
| SourceOutput.SourceAbortsIffTailFull | entry/src/main/cpp/src/buffer/edn_buffer.cpp:24-24 | As written, Write fails its assertion exactly if the space check passes and the tail has no space |
| SourceOutput.AbortHappens | entry/src/main/cpp/src/buffer/edn_buffer.cpp:94-96 | With the default sizes: 4048 bytes and one more |
| SourceOutput.SourceOverrunsIff | entry/src/main/cpp/src/buffer/edn_buffer.cpp:71-79 | As written, some string makes the first node run over the array exactly if the chain is empty and the space computed from size_ exceeds the capacity and suffices for the smallest node |
| SourceOutput.SourceRunOverrunsIff | entry/src/main/cpp/src/buffer/edn_buffer.cpp:71-102 | As written, after every run from a right size_, short of 2^64 bytes: exactly if the chain is empty and bytes were left uncounted |
| SourceOutput.OutputOverruns | entry/src/main/cpp/src/buffer/edn_buffer.cpp:71-79 | With the default sizes: 4000 bytes written, 100 more refused late, everything sent, and a write of 81920 bytes |
| SourceOutput.SourceOutputSizeIsRightIff | entry/src/main/cpp/src/buffer/edn_buffer.cpp:232-236 | As written, over every run short of an overrun, size_ is right exactly if no write was refused late; once everything is sent GetSize() answers minus the uncounted bytes |
| SourceOutput.SourceOutputSizeDrifts | entry/src/main/cpp/src/buffer/edn_buffer.cpp:93-102 | As written, over every run short of an overrun, size_ falls short by exactly the bytes that late refusals put into the tail, modulo 2^64 |
| SourceOutput.OutputSizeWraps | entry/src/main/cpp/src/core/edn_connect.cpp:37-52 | With the default sizes: GetSize() is -48 with nothing chained, a case on_write has no branch for |
| ConnectIndex.FaultsIffRemovedTwice | entry/src/main/cpp/src/core/edn_context.cpp:69-78 | Over every run the index is driven into undefined behaviour exactly by the second removal of a connection from it |
| ConnectIndex.CanFaultIffPending | entry/src/main/cpp/src/core/edn_connect.cpp:66-76 | Once a connection is closed and removed, some continuation removes it again exactly if its close or error callback is noted or queued or its timeout callback is queued |
| ConnectIndex.UserCloseIsSafeIff | entry/src/main/cpp/src/edn.cpp:115-126 | edn_close removes an indexed connection, and what can go wrong afterwards is exactly what was pending before |
| ConnectIndex.RemovedTakesNoData | entry/src/main/cpp/src/edn.cpp:61-72 | A connection taken out of the index gets no more data to send, over every continuation |
| ConnectIndex.RemovedTwice | entry/src/main/cpp/src/core/edn_connect.cpp:71-77 | The peer hangs up and edn_close comes before the close callback |
| ConnectIndex.StaleRemovalTakesAnother | entry/src/main/cpp/src/edn.cpp:49-55 | Where another event has taken over the descriptor the late removal takes that one out |
| ConnectSpec.StepKeepsInv | entry/src/main/cpp/src/event/edn_io_event.cpp:76-153 | Every step (delivery, handler, each task, SendData, close, timer) keeps the invariant on registration, outstanding callbacks, CONNECT and the timer |
| ConnectSpec.NoLostRearm | entry/src/main/cpp/src/core/edn_epoll.cpp:77-88 | In every reachable open state with nothing outstanding the kernel mask is convert_events of the interest bits |
| ConnectRuns.NeverDeaf | entry/src/main/cpp/src/event/edn_io_event.cpp:88-98 | Over every run an open connection reads, is about to or wants to; with nothing outstanding the kernel mask has EPOLLIN, EPOLLRDHUP, EPOLLONESHOT and EPOLLET, and EPOLLOUT as wanted |
| ConnectRuns.ArmedIsWatched | entry/src/main/cpp/src/core/edn_epoll.cpp:137-152 | Over every run whatever direction is armed comes with EPOLLRDHUP, EPOLLONESHOT and EPOLLET |
| ConnectRuns.DeliveryDisarms | entry/src/main/cpp/src/core/edn_epoll.cpp:139-144 | After a delivery to an armed connection nothing is delivered before it is registered anew |
| ConnectRuns.CallbacksAreCalledFor | entry/src/main/cpp/src/event/edn_io_event.cpp:76-118 | Over every run each callback, and handler() itself, runs exactly once for each delivery that called for it while it was not noted: none lost, none without |
| ConnectRuns.SettlesAtLast | entry/src/main/cpp/src/event/edn_io_event.cpp:76-118 | Left to itself a connection comes to rest: the pool has a bounded number of steps to make for it, in whatever order, and when none is left it is quiet or was closed under its connect task |
| ConnectRuns.ConnectIsServed | entry/src/main/cpp/src/event/edn_io_event.cpp:78-87 | Once CONNECT is emitted its callback stays noted or queued until it has run or the connection is closed |
| ConnectRuns.EndIsNeverForgotten | entry/src/main/cpp/src/event/edn_io_event.cpp:110-115 | Once an error or a hang-up is delivered the connection is closed wherever nothing is outstanding, over every continuation |
| ConnectRuns.ClosedIff | entry/src/main/cpp/src/core/edn_connect.cpp:183-191 | A connection is closed exactly if its close or error callback, edn_close, the timeout or a write task with bytes whose send failed has run |
| ConnectRuns.StatusIsLastDelivered | entry/src/main/cpp/src/event/edn_io_event.cpp:124-153 | Over every run the status says what was delivered last: error, else hang-up, else bytes, else space; and CONNECTING before the first |
| ConnectRuns.SendTakesIff | entry/src/main/cpp/src/core/edn_connect.cpp:150-181 | After every run SendData takes its bytes exactly if there are some, the buffer has room, and the last delivery was neither error nor hang-up; otherwise it changes nothing |
| ConnectRuns.OutputIsCounted | entry/src/main/cpp/src/core/edn_connect.cpp:33-54 | Over every run the bytes in the output buffer and those the socket took are those SendData took |
| ConnectRuns.WriteIsWantedForBytes | entry/src/main/cpp/src/core/edn_connect.cpp:48-51 | From the first time it is writable on, WRITE is wanted only while bytes are waiting |
| ConnectSpec.StaleAddLosesWrite | entry/src/main/cpp/src/core/edn_epoll.cpp:77-82 | If add is not atomic: the kernel misses the interest exactly if a SendData in between began to want WRITE, and later SendData calls do not mend it |
| ConnectSpec.TwoReadersAtMost | entry/src/main/cpp/src/event/edn_io_event.cpp:88-98 | No run ever has more than two read callbacks outstanding |
| ConnectSpec.TwoReadersHappen | entry/src/main/cpp/src/event/edn_io_event.cpp:78-87 | A concrete run has two, because the connect task asks for READ as well |
| ConnectSpec.ExclusiveIffConnectedIdle | entry/src/main/cpp/src/event/edn_io_event.cpp:78-98 | After the connect task, no continuation ever has two readers at once exactly if no reader was outstanding when it ended |
| ConnectSpec.StrandedIffPartialWrite | entry/src/main/cpp/src/core/edn_connect.cpp:33-54 | A step strands output exactly if it is the last write task of an open connection, leaves bytes behind, WRITE is not wanted and the task, as written, does not restore it |
| ConnectSpec.StrandedUntilSend | entry/src/main/cpp/src/core/edn_connect.cpp:150-181 | Stranded bytes stay until another SendData or the end of the connection |
| ConnectSpec.NeverStrandedIffRestored | entry/src/main/cpp/src/event/edn_io_event.cpp:99-108 | Output is never stranded over any run exactly if the write task restores WRITE after a partial send |
| ConnectSpec.StrandedHappens | entry/src/main/cpp/src/core/edn_connect.cpp:33-54 | A concrete run of the code as written strands six bytes |
| ConnectSpec.ConnectOnce | entry/src/main/cpp/src/event/edn_io_event.cpp:137-145 | Over every run CONNECT is emitted at most once and only together with WRITE |
| ConnectSpec.FirstDeliveryDecides | entry/src/main/cpp/src/event/edn_io_event.cpp:124-150 | The first delivery decides whether CONNECT is ever emitted: exactly if it says writable and neither error nor hang-up |
| ConnectSpec.ExpiredConnectIsARun | entry/src/main/cpp/src/edn.cpp:49-57 | With a timeout that has passed when its timer is added, what follows is a run from the usual start, so all that is proved of runs covers it |
| ConnectSpec.DeletedTimerNeverRuns | entry/src/main/cpp/src/edn.cpp:49-57 | A connect timer deleted before it fires never runs its callback, over every continuation |
| ConnectSpec.ConnectBeatsTimeout | entry/src/main/cpp/src/core/edn_connect.cpp:11-19 | Connect handling that runs before the timer fires rules the timeout callback out |
| ConnectRuns.FiredRunsAtLast | entry/src/main/cpp/src/edn.cpp:50-55 | A timer that has fired keeps its callback queued until it runs, whatever else happens |
| ConnectRuns.TimeoutRunsOnce | entry/src/main/cpp/src/edn.cpp:50-55 | The timeout callback runs once at most |
| ConnectSpec.ConnTaskFaultsIffClosed | entry/src/main/cpp/src/core/edn_connect.cpp:16-17 | The connect task uses a null timer_ exactly if the connection was closed before it ran |
| ConnectSpec.FaultHappens | entry/src/main/cpp/src/edn.cpp:49-57 | A concrete run in which the timeout comes between connection and connect task does so |
| EdnConnects.EdnConnect.ConvertEvents | entry/src/main/cpp/src/event/edn_io_event.cpp:124-153 | Changing status and interest bit by bit does exactly what ConnectSpec.Convert says |
| EdnConnects.EdnConnect.Handle | entry/src/main/cpp/src/event/edn_io_event.cpp:76-117 | Spawns one task for each noted event and clears the note, as ConnectSpec.Handler |
| EdnConnects.EdnConnect.Activate | entry/src/main/cpp/src/core/edn_context.cpp:93-98 | A delivery disarms a one-shot registration, converts, notes and queues the handler, as ConnectSpec.Deliver |
| EdnConnects.EdnConnect.RunConnTask | entry/src/main/cpp/src/event/edn_io_event.cpp:79-86 | on_conn and re-registration, as ConnectSpec.ConnTask, with the null timer as a fault |
| EdnConnects.EdnConnect.RunReadTask | entry/src/main/cpp/src/event/edn_io_event.cpp:89-97 | on_read and re-registration, as ConnectSpec.ReadTask: READ is wanted again, and in the kernel mask of an open connection |
| EdnConnects.EdnConnect.RunWriteTask | entry/src/main/cpp/src/event/edn_io_event.cpp:100-107 | on_write and re-registration, as ConnectSpec.WriteTask |
| EdnConnects.EdnConnect.WriteOut | entry/src/main/cpp/src/core/edn_connect.cpp:33-54 | on_write, as ConnectSpec.OnWrite |
| EdnConnects.EdnConnect.Send | entry/src/main/cpp/src/core/edn_connect.cpp:150-181 | SendData with its five answers: refuses no data, unconnected states and a full buffer, registers only if WRITE was not wanted |
| EdnConnects.EdnConnect.Close | entry/src/main/cpp/src/core/edn_connect.cpp:183-191 | Deletes the timer once and takes the fd out of the kernel |
| EdnConnects.EdnConnect.Serve | entry/src/main/cpp/src/event/edn_io_event.cpp:76-153 | Over every sequence of deliveries, tasks, calls and closings carried out on the object: reading, about to or wanting to while open, at most two readers, CONNECT at most once, the kernel asked for bytes and shutdown when nothing is outstanding, no output byte lost, and with WRITE restored output is never stranded |
| EdnConnects.EdnEpoll.Ctl | entry/src/main/cpp/src/core/edn_epoll.cpp:79-83 | epoll_ctl on one fd: EEXIST, ENOENT and EBADF without effect |
| EdnConnects.EdnEpoll.Add | entry/src/main/cpp/src/core/edn_epoll.cpp:77-88 | EPOLL_CTL_ADD, EPOLL_CTL_MOD on EEXIST, and the error code: the mask becomes convert_events of the interest, and on a closed fd nothing changes |
| TimerSpec.AddRefinesSet | entry/src/main/cpp/src/core/edn_timer_group.cpp:10-17 | Adding a fresh timer adds exactly it to the set of live timers; the enabled entries of the heap stay exactly the keys of timer_map_, each once |
| TimerSpec.AddKeepsInvIffFresh | entry/src/main/cpp/src/core/edn_timer_group.cpp:10-17 | That agreement survives AddTimer exactly if the timer is enabled and not queued |
| TimerSpec.ReaddedTimerIsLost | entry/src/main/cpp/src/core/edn_timer_group.cpp:19-46 | A deleted timer added again is dropped by Dispatch unfired while timer_map_ keeps it, so that DelTimer would look at the top of an empty heap |
| TimerSpec.DelRefinesSet | entry/src/main/cpp/src/core/edn_timer_group.cpp:19-35 | DelTimer removes exactly that timer from the set on either path, and the heap is not empty whenever its top is looked at |
| TimerSpec.TurnRefinesSet | entry/src/main/cpp/src/core/edn_timer_group.cpp:40-63 | One turn of Dispatch removes exactly the timer it fires and puts a persistent one back with its next expiry |
| TimerSpec.DispatchIsExact | entry/src/main/cpp/src/core/edn_timer_group.cpp:37-68 | At a fixed clock with positive periods, Dispatch fires precisely the live timers that are due, each once, in order of expiry, re-arms the persistent ones and leaves none due |
| TimerSpec.DispatchBetween | entry/src/main/cpp/src/core/edn_timer_group.cpp:37-68 | With a moving clock: every live timer due at the first reading fires, none fires that is not due at the last, in order of expiry, and none is left due where the loop stops |
| TimerGroups.MovingClockIsExact | entry/src/main/cpp/src/core/edn_timer_group.cpp:40-63 | With a clock that does not go back, what Dispatch ensures gives that between its first and its last reading |
| TimerSpec.DispatchEnds | entry/src/main/cpp/src/core/edn_timer_group.cpp:40-63 | Under clock readings bounded by T and positive periods the loop takes at most the sum over queued timers of 1 (plus T + 1 - expiry for persistent ones due by T) turns |
| TimerSpec.StandingDispatchEndsIff | entry/src/main/cpp/src/core/edn_timer_group.cpp:40-63 | At a clock that stands still the loop has a bound exactly if no live persistent timer that is due has a period that is not positive |
| TimerSpec.AnswerIsEarliestLive | entry/src/main/cpp/src/core/edn_timer_group.cpp:64-67 | With the loop done the answer is -1 if no timer is live, and otherwise the earliest live expiry minus the last clock reading, although disabled timers may be queued |
| TimerSpec.AnswerMisleadsIffClockPassed | entry/src/main/cpp/src/core/edn_timer_group.cpp:64-67 | With a timer live the answer is negative exactly if the clock has passed the earliest expiry between the reading that stopped the loop and the one for the answer; with an unmoved clock it is positive |
| TimerSpec.AnswerMisleads | entry/src/main/cpp/src/core/edn_timer_group.cpp:64-67 | One millisecond late it answers -1 with a timer live |
| TimerSpec.FiringsAreFair | entry/src/main/cpp/src/core/edn_timer_group.cpp:47-57 | Over every run no timer fires before its expiry, a one-shot fires at most once, successive firings of a persistent timer are at least its period apart |
| TimerSpec.DeletedNeverFires | entry/src/main/cpp/src/core/edn_timer_group.cpp:19-35 | A timer that is known and not live, deleted by either path for instance, never fires afterwards, over every continuation |
| TimerSpec.ExpiredFiresOnce | entry/src/main/cpp/src/core/edn_epoll.cpp:52-61 | A timer that has expired when it is added fires there and then and in no continuation again, persistent or not; it joins the live timers exactly if it has not expired |
| TimerGroups.EpollAdd | entry/src/main/cpp/src/core/edn_epoll.cpp:52-61 | An expired timer goes to the pool and leaves the group as it is, any other joins the group, as TimerSpec.EpollAdd |
| TimerGroups.EdnTimerGroup.AddTimer | entry/src/main/cpp/src/core/edn_timer_group.cpp:10-17 | On shared timer objects, as TimerSpec.AddTimer |
| TimerGroups.EdnTimerGroup.DelTimer | entry/src/main/cpp/src/core/edn_timer_group.cpp:19-35 | Pops the timer if it is on top and disables it in place otherwise, as TimerSpec.DelTimer, and answers whether it was known |
| TimerGroups.EdnTimerGroup.TakeTurn | entry/src/main/cpp/src/core/edn_timer_group.cpp:41-57 | One pass of the loop on shared timer objects, as TimerSpec.Turn |
| TimerGroups.EdnTimerGroup.FireDue | entry/src/main/cpp/src/core/edn_timer_group.cpp:40-63 | The loop of Dispatch terminates under a moving bounded clock, makes the turns of TimerSpec and stops with nothing left to do |
| TimerGroups.EdnTimerGroup.Dispatch | entry/src/main/cpp/src/core/edn_timer_group.cpp:37-68 | The same, and the answer is -1 without live timers and otherwise the time to the earliest live expiry, at one more reading of the clock |
| TimerGroups.EdnTimerGroup.Requeue | entry/src/main/cpp/src/core/edn_timer_group.cpp:51-54 | The expiry changes only while the timer is out of the heap |
| TimerGroups.EdnTimerGroup.GetMinTimeout | entry/src/main/cpp/src/core/edn_timer_group.cpp:70-77 | -1 for an empty heap, otherwise the expiry of the top minus now |
| TimerGroups.StandingClockIsExact | entry/src/main/cpp/src/core/edn_timer_group.cpp:37-68 | With a clock that stands still what Dispatch ensures makes its firings exactly the due timers, in order |
| PoolSpec.TasksAreConserved | entry/src/main/cpp/src/core/edn_thread_pool.h:49-60 | In every interleaving the accepted tasks are those started, in the same order, followed by those queued, and those started are those finished or running |
| PoolSpec.AcceptedIsEnqueued | entry/src/main/cpp/src/core/edn_thread_pool.h:49-60 | In every interleaving the accepted tasks are exactly those of the enqueues that got the mutex before the stop, in order |
| PoolSpec.EnqueuedIsKept | entry/src/main/cpp/src/core/edn_thread_pool.h:49-60 | At every moment they are, in that order, those started and those queued, and each as often as it was enqueued it is queued, being run or finished |
| PoolSpec.TakenIsNeverLost | entry/src/main/cpp/src/core/edn_thread_pool.h:49-60 | A task once taken by an enqueue is queued, being run or finished from then on |
| PoolSpec.NotifiedOnceEach | entry/src/main/cpp/src/core/edn_thread_pool.h:60-60 | Each task enqueued is notified once, by now or by a call still to come |
| PoolSpec.DrainedWhenJoined | entry/src/main/cpp/src/core/edn_thread_pool.cpp:16-29 | Once all workers have exited every accepted task has finished |
| PoolSpec.NoTaskIsForgotten | entry/src/main/cpp/src/core/edn_thread_pool.cpp:20-20 | While a worker sleeps every queued task has a notification to come or a worker about to look |
| PoolSpec.NeverOversleptIffLocked | entry/src/main/cpp/src/core/edn_thread_pool.cpp:35-41 | No worker ever sleeps for good through the destructor exactly if the stop flag is set under the mutex |
| PoolSpec.BlocksAfterStopIffDeciding | entry/src/main/cpp/src/core/edn_thread_pool.cpp:36-37 | A worker can be found blocked after notify_all exactly if at that moment it had evaluated the predicate and not yet blocked |
| PoolSpec.OversleepHappens | entry/src/main/cpp/src/core/edn_thread_pool.cpp:35-41 | As written one worker suffices: predicate, stop, notify_all, block |
| PoolSpec.OversleptForGood | entry/src/main/cpp/src/core/edn_thread_pool.cpp:20-20 | Only a spurious wake-up of that worker ends its sleep |
| PoolSpec.ShutdownEnds | entry/src/main/cpp/src/core/edn_thread_pool.cpp:35-41 | After notify_all only a bounded number of steps can take place |
| PoolSpec.ShutdownJoins | entry/src/main/cpp/src/core/edn_thread_pool.cpp:38-40 | Where they end each worker has exited or has overslept, and with the flag set under the mutex all have exited |
| ThreadPools.EdnThreadPool.Serve | entry/src/main/cpp/src/core/edn_thread_pool.cpp:16-41 | Every interleaving carried out on the object starts and queues the tasks enqueued before the stop, in order, and with the flag set under the mutex nobody oversleeps |
| ThreadPools.EdnThreadPool.Submit | entry/src/main/cpp/src/core/edn_thread_pool.h:50-59 | Appends the task to the queue with one notification to come, or refuses it after the stop |
| ThreadPools.EdnThreadPool.Notify | entry/src/main/cpp/src/core/edn_thread_pool.h:60-60 | notify_one wakes a blocked worker, if there is one |
| ThreadPools.EdnThreadPool.Complete | entry/src/main/cpp/src/core/edn_thread_pool.cpp:28-28 | A task that has returned is finished, and its worker goes back to look |
| ThreadPools.EdnThreadPool.Look | entry/src/main/cpp/src/core/edn_thread_pool.cpp:20-25 | With the mutex: wait, leave, or take the oldest task, as PoolSpec.Check |
| ThreadPools.EdnThreadPool.NotifyEveryone | entry/src/main/cpp/src/core/edn_thread_pool.cpp:37-37 | Wakes every blocked worker and no other |
| ThreadPools.EdnThreadPool.RunToExit | entry/src/main/cpp/src/core/edn_thread_pool.cpp:16-29 | The loop of a worker alone with a stopped pool runs all queued tasks, oldest first, and ends |
| ContextSpec.KeysNeverCollide | entry/src/main/cpp/src/event/edn_signal.h:17-26 | Timers have key -1, signals at most -2, I/O at least 0, and within a kind the key is the event's own |
| ContextSpec.SignalKeyIsOwnIff | entry/src/main/cpp/src/event/edn_signal.h:17-26 | The key of a signal number is no other event's exactly for numbers from 1 |
| ContextSpec.AddRefinesMap | entry/src/main/cpp/src/core/edn_context.cpp:55-63 | AddEvent puts the event under its key, replaces what was there, leaves all other keys |
| ContextSpec.AddKeepsBijectionIffFresh | entry/src/main/cpp/src/core/edn_context.cpp:59-62 | table_ and idle_queue_ stay in bijection through AddEvent exactly if the key was not in use |
| ContextSpec.DelRefinesMap | entry/src/main/cpp/src/core/edn_context.cpp:69-78 | DelEvent removes exactly that key, and is undefined exactly if the key is absent |
| ContextSpec.DelKeepsBijection | entry/src/main/cpp/src/core/edn_context.cpp:69-78 | DelEvent keeps table_ and idle_queue_ in bijection |
| ContextSpec.ActiveRefinesMap | entry/src/main/cpp/src/core/edn_context.cpp:83-105 | ActiveEvent hands over the event under the key and removes exactly the non-persistent one it activates |
| ContextSpec.ActiveFaultsIffNotIo | entry/src/main/cpp/src/core/edn_context.cpp:93-97 | As written ActiveEvent uses a null pointer exactly for indexed signals; with the kinds told apart never |
| ContextSpec.GetFindsLatest | entry/src/main/cpp/src/core/edn_context.cpp:125-134 | Over every run that stays defined GetEvent answers the event added last under the key and not removed since |
| ContextSpec.ReusedKeyOrphans | entry/src/main/cpp/src/core/edn_context.cpp:60-61 | The event that held a key when the key is used again is left in the list with no way to it |
| ContextSpec.OrphanForGood | entry/src/main/cpp/src/core/edn_context.cpp:110-110 | No later operation removes it, so idle_queue_ is never empty again |
| ContextSpec.LeavesIff | entry/src/main/cpp/src/core/edn_context.cpp:110-114 | Run leaves its loop exactly if no event is listed and no timer is live or the earliest expiry passed between the two clock readings of the last Dispatch: never beside a listed event, but at times beside a live timer |
| ContextSpec.ListedIffFound | entry/src/main/cpp/src/core/edn_context.cpp:110-110 | Nothing is listed exactly if no key finds an event, where no key was used twice |
| ContextSpec.SignalFaults | entry/src/main/cpp/src/core/edn_context.cpp:93-97 | As written, adding a signal and catching it does so |
| Contexts.Serve | entry/src/main/cpp/src/core/edn_context.cpp:55-134 | Every sequence of operations carried out on the object: while defined, each key finds the event added last under it and not removed since |
| Contexts.EdnContext.AddEvent | entry/src/main/cpp/src/core/edn_context.cpp:55-63 | On the list and the table, as ContextSpec.AddEvent |
| Contexts.EdnContext.DelEvent | entry/src/main/cpp/src/core/edn_context.cpp:69-78 | On the list and the table, as ContextSpec.DelEvent |
| Contexts.EdnContext.ActiveEvent | entry/src/main/cpp/src/core/edn_context.cpp:83-105 | On the list and the table, as ContextSpec.ActiveEvent, with the answer for an unknown key |
| Contexts.EdnContext.GetEvent | entry/src/main/cpp/src/core/edn_context.cpp:125-134 | The event under the key, or none |

## Left out

- Socket creation, binding, connecting, address lookup and the answer of GetReadableBytes: system calls; only the
  outcomes of send and recv are here.
- epoll_wait, sigaction and the signal pipe: the one-shot kernel mask of one descriptor is all that is kept of them.
- The table of connections, the configuration, the singletons, logging and time stamps: they carry no protocol.
- The N-API glue, the user interface, scripts and build files.
- The internals of std::priority_queue, std::list and std::unordered_map: the heap is a bag that gives out an earliest
  entry, the list a sequence of elements with places.
- The 32-bit truncation of the millisecond clock: times are unbounded integers.
- The low and high water marks: they stay 0 in the library.
- The int results of RemainSpace and the int lengths in RecvAtMost: lengths are unbounded, and only size_t subtraction
  wraps round.
- The address of a node object: a BufferNode of the class is a Dafny object with a position, and its header fields are
  not bytes of the array.
- The steps inside edn_connect: the loop is taken to deliver nothing to a connection before its timer is set and added.
- What a failing send had sent before it failed, in the connection protocol: the connection is closed then.
- Destruction of connections and events while tasks still refer to them.
- The contents of the output buffer in the connection protocol: only its number of bytes is there; what the bytes are
  is stated in BufferRuns.
- EdnBuffers.BufferNode.Init: nulls both links, which the original leaves as the memory has them; in this the form as
  written is already repaired.
- EdnConnects.EdnConnect.Send: whether the output buffer takes the bytes is an argument, because connection and buffer
  are modelled apart.
- ConnectIndex.FaultsIffRemovedTwice: the rest of the program is taken to use other keys and to stay defined; the reuse
  of the descriptor is ConnectIndex.StaleRemovalTakesAnother.
