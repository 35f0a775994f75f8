# Verified models of the repository's protocols and data structures

The repository holds separate C++ programs. This project models the ones whose correctness is hardest to see
from the code, and proves what they promise. Every statement is for all inputs, all runs or all reachable
states. Where a modelled operation promises more than it does, the condition under which it keeps the promise is
proved to be exact and a case that breaks it is given; operations that are not modelled are listed at the end.

| part | files | form |
|---|---|---|
| lock-free free list | `FreeListMachine`, `FreeListProof`, `FreeListTheorems`, `FreeListProgress` | one step for each atomic access, any number of threads |
| ticket protocol of the queue's consumers | `TicketMachine`, `TicketProof`, `TicketProgress` | one step for each atomic access, 64-bit words |
| sub-queue of one producer: block ring, block index, elements | `SubQueueMachine`, `SubQueueProof`, `SubQueueTheorems`, `SubQueueProgress` | one step for each access, on top of the ticket protocol |
| WebSocket streaming parser and sender | `NetworkOrder`, `WsStream`, `WsUnmask`, `WsProtocol`, `WsRoundTrip`, `WsDelivery`, `WsSession` | a class over byte buffers, refined to an automaton that reads one byte at a time |
| UTF-8 validation | `Utf8` | a loop against the standard's encoding |
| small WebSocket codec | `SimpleWebSocket` | a class with two caches |
| longest palindrome | `LongestPalindrome` | loops over an array |
| red-black and AVL trees | `BinaryTree`, `RedBlackColors`, `RedBlackTree`, `AvlTree` | nodes on the heap |
| partial writes and shared buffers | `SendStream`, `SocketQueue`, `SharedBuffers` | a linked queue refined to a byte stream; reference counts over many sockets |
| timers | `Timers` | a vector changed by its own callbacks |
| radix sort | `RadixSort` | loops over arrays |
| circular buffer | `CircularBuffer` | two linked lists |
| log record | `LogLine` | a growing byte buffer |

`Wrappers` and `Arithmetic` hold what several parts share. `dafny verify dfyconfig.toml` checks everything.

## The parts

**Free list.** The state has the head, the reference word and the `next` pointer of each node, and a program
counter with the live C++ locals for each thread. The invariant gives every node one status; the theorems speak
of the program's own state only. They hold as long as the number of threads plus one is below 2^31, and
`OneThreadMoreBreaksAssertion` gives, for any larger number of threads, an execution that fails the assertion on line 62.
`FreeListProgress` says what the calls achieve: `try_get` comes back empty-handed only if it saw the list empty, and
on a quiet list `try_get` and `add` take off and put on exactly one node.

**Queue.** `TicketMachine` is what `dequeue` and `dequeue_bulk` do to the four counters, in 64-bit words.
The proof keeps the fate of every ticket ever taken and counts. `SubQueueMachine` adds the ring of blocks, the
block index, which doubles, the empty flags and the cells; a consumer that finds no index, a null block or an
unconstructed cell goes to a crash state, which is proved unreachable. What was enqueued is read off the calls alone:
the arguments of the `enqueue` calls that returned with success, in order. `TicketProgress` and `SubQueueProgress` say
that operations do not fail without a reason: a call with room and memory is accepted, a claim is always delivered,
and a dequeue on its own leaves with as many of the next elements as there are, up to the number asked for.

**WebSocket.** `WsStream.Run` is the meaning of the parser: an automaton that takes one byte at a time, so it
cannot depend on how the bytes were cut. `WsProtocol.WebSocket` is the code, with its spill buffer, in-place
unmasking over its own header, mask rotation, two-deep opcode stack and shared fragment buffer; each of its
methods is proved to do what the automaton does on the bytes it consumed. Whole frames and in-order delivery are
then proved of the automaton, and `WsSession` states the results of the sockets themselves: chunking
independence, and what an application hears of what was sent. What the sender writes is also read by
`WsRoundTrip.ReadFrame`, a reader of section 5.2 of RFC 6455 that takes the mask bit, the reserved bits and the form of
the length from the wire and knows nothing of either end's configuration.

**Algorithms.** Each loop is proved against the property the algorithm is for: a palindromic substring of
maximum length, strict order and the exact key set, a stable sort. Tree nodes are objects whose fields are
reassigned in place; a ghost shape says which tree they form, and the colours of red-black nodes are followed round
by round.

**Event loop.** `SendStream` says what a sequence of partial, blocked and failed sends does to the byte stream
and to the callbacks; the linked queue in `SocketQueue` refines it, and `SharedBuffers` counts references over
any number of sockets with it.

Where code and comments or documentation disagree, the model follows the code:

- `longestPalindrome1` and `longestPalindrome2` are offered as two solutions of one problem, but the first
  returns the empty string for a string of one character. `LongestPalindrome1` proves that this is the only
  difference.
- `MaxBit` is meant to count the digits of the largest number but adds at most one for each number. What it
  counts is one more than the longest chain of numbers, from left to right, with at least two, three, four, ...
  digits (`MaxBit`). That is enough if and only if there is such a chain with one number fewer than the largest
  number has digits (`EnoughDigits`); then `RadixSort` sorts (`SortedWithChain`), else it may not (`TooFewDigits`).
- The red-black insertion goes on with the new node after an inner turn has coloured it black. If that node is then
  turned inwards again, two red nodes come to lie in a row: inserting 50, 20, 70, 10, 40, 30, 35 into an empty tree does
  it (`InsertionsBreak`). A red-black tree stays one if and only if no round of the repair turns a black node inwards
  (`RedBlackUnlessBroken`, and `AddNode` for the tree on the heap).
- `ParseMsg` reports an error when exactly one byte is left over. `ParsePrefix` gives its exact status for every
  prefix of a stream.

## Model

| member | source | states |
|---|---|---|
| FreeListTheorems.NodesInExactlyOnePlace | lock_free_queue/lock_free_stack.hpp:45-106 | in every reachable state each node is in exactly one of four places: with a client, in a pending add, on the list once, or being taken off |
| FreeListTheorems.ReferencesAreCounted | lock_free_queue/lock_free_stack.hpp:34-75 | the low 31 bits of each reference word are the list's own reference plus the number of `try_get` threads that hold one |
| FreeListTheorems.OnePublisherPerNode | lock_free_queue/lock_free_stack.hpp:85-107 | at most one thread at a time is inside `add_knowing_refcount_is_zero` with a node |
| FreeListTheorems.TakenNodeIsNotMarked | lock_free_queue/lock_free_stack.hpp:62 | the assertion never fails |
| FreeListTheorems.TryGetUnlinksHead | lock_free_queue/lock_free_stack.hpp:58-59 | no ABA: a successful head swap installs the current successor and removes exactly the first node |
| FreeListTheorems.PublishPushesNode | lock_free_queue/lock_free_stack.hpp:95-99 | a successful head swap of a publisher puts its node, which was not on the list, in front of the list |
| FreeListTheorems.OtherActionsKeepList | lock_free_queue/lock_free_stack.hpp:34-106 | no step that leaves the head changes the list, although publishers write `next` pointers meanwhile |
| FreeListTheorems.QuiescentListIsComplete | lock_free_queue/lock_free_stack.hpp:34-106 | no loss: with no call in progress every node is owned by a client or on the list, with count 0 or 1 |
| FreeListProgress.GivesUpOnlyIfSeenEmpty | lock_free_queue/lock_free_stack.hpp:45-80 | a `try_get` that ends has a node, or has read an empty head during the call; a lost swap never ends it |
| FreeListProgress.LoneTryGet | lock_free_queue/lock_free_stack.hpp:45-66 | with no other call in progress, `try_get` ends with the first node and leaves the rest of the list in order, or with nothing if the list is empty |
| FreeListProgress.LoneAdd | lock_free_queue/lock_free_stack.hpp:34-107 | with no other call in progress, `add` puts its node in front of the list |
| FreeListTheorems.OneThreadMoreBreaksAssertion | lock_free_queue/lock_free_stack.hpp:48-62 | the bound on the number of threads is exact: with one more, references carry into bit 31 and line 62 fails |
| FreeListProof.ActionInv | lock_free_queue/lock_free_stack.hpp:34-106 | every atomic access of every thread keeps the invariant from which all of the above follows |
| FreeListProof.GetCasHeadStep | lock_free_queue/lock_free_stack.hpp:59-66 | the step of a successful head swap: its local `next` is still the node's |
| FreeListProof.PubGiveBackStep | lock_free_queue/lock_free_stack.hpp:99-104 | after a lost head swap the list's reference becomes the mark again, in one addition, and the thread retries exactly when nobody else holds the node |
| TicketProof.HeadNeverPassesTail | project_about/feedproxy/public/concurrentqueue.h:1885-1930 | under any interleaving of single and bulk consumers with the producer, head plus all claims on their way to it is at most tail |
| TicketProof.OptimisticCountBalances | project_about/feedproxy/public/concurrentqueue.h:1972-1975 | the optimistic count is head plus overcommit plus the tickets in flight, partly settled bulk tickets included |
| TicketProof.OvercommitAtMostTicket | project_about/feedproxy/public/concurrentqueue.h:1913 | the assertion there and on line 2177 never fails |
| TicketProof.EveryIndexClaimedOnce | project_about/feedproxy/public/concurrentqueue.h:2169-2189 | head never passes tail, and over any run the claims tile 0, 1, ..., head: every index given is that of a published element, and it is given once; that indices are given is `TicketProgress` |
| TicketProof.WinnersFit | project_about/feedproxy/public/concurrentqueue.h:1918-1930 | the counting argument: of the tickets taken, no more have won than elements were published |
| TicketProof.SingleTestIsBulkTest | project_about/feedproxy/public/concurrentqueue.h:1919 | the wrapped test of `dequeue` and that of `dequeue_bulk` on line 2180 decide the same |
| TicketProof.WordArithmetic | project_about/feedproxy/public/concurrentqueue.h:405-417 | as long as the numbers do not lap, `circular_less_than` on 64-bit words is the comparison of the true numbers, and the wrapped difference is the true one |
| TicketProgress.LoneDequeueTakesWhatIsThere | project_about/feedproxy/public/concurrentqueue.h:2169-2189 | after any run, with nobody between ticket and claim, a call for at most max elements and accesses of its thread alone end in the claim of the next min(max, tail - head) indices from head on, and in nothing only if that number is 0 |
| TicketProgress.LeavesOnlyIfNoneSeen | project_about/feedproxy/public/concurrentqueue.h:1887 | among others, a consumer leaves without a ticket exactly if every element it saw published has a ticket not known to be in vain |
| TicketProgress.GivesUpOnlyBeyondTail | project_about/feedproxy/public/concurrentqueue.h:2180-2189 | and gives up exactly those of its tickets that the published elements do not reach |
| SubQueueTheorems.ConsumerGetsItsElements | project_about/feedproxy/public/concurrentqueue.h:1930-1970 | a consumer given the indices from k on leaves with exactly the k-th and following of the elements enqueued, which are the arguments of the calls that returned with success |
| SubQueueTheorems.QueueIsFirstInFirstOut | project_about/feedproxy/public/concurrentqueue.h:1780-1976 | every delivery of any run is the matching slice of the arguments of the successful `enqueue` calls in order, and the tail is their number |
| SubQueueTheorems.EachIndexExactlyOnce | project_about/feedproxy/public/concurrentqueue.h:1930-1976 | each index below head is delivered once or held by exactly one consumer, each other index neither |
| SubQueueTheorems.LookupFindsElement | project_about/feedproxy/public/concurrentqueue.h:1935-1947 | the block found for a claimed index holds its element until the consumer is done, whatever the producer did since |
| SubQueueTheorems.FlagNotSetBefore | project_about/feedproxy/public/concurrentqueue.h:1514 | the assertion there and on line 1536 never fails: no empty flag is set twice between two uses of a block |
| SubQueueTheorems.NoFaults | project_about/feedproxy/public/concurrentqueue.h:1780-1976 | no null block, missing index, slot out of bounds or unconstructed element is ever touched |
| SubQueueProgress.EnqueueIsAccepted | project_about/feedproxy/public/concurrentqueue.h:1780-1880 | after any run, a call with fewer than 2^63 - 32 elements waiting and memory granted is over after ten accesses at most, and its argument is then the next element enqueued |
| SubQueueProgress.CallReturns | project_about/feedproxy/public/concurrentqueue.h:1780-1880 | there is such a call from every reachable state as long as the block index may still be doubled |
| SubQueueProgress.RefusedOnlyForWant | project_about/feedproxy/public/concurrentqueue.h:1803-1827 | whatever the consumers do meanwhile, a call that ends without publishing found no room or was refused memory |
| SubQueueProgress.ClaimIsDelivered | project_about/feedproxy/public/concurrentqueue.h:1935-1970 | whatever state the queue is in, a consumer with a claim ends with exactly the elements enqueued at its indices |
| SubQueueProgress.LoneDequeueGetsNextElements | project_about/feedproxy/public/concurrentqueue.h:2167-2249 | with nobody between ticket and claim, one call and accesses of its thread alone end with the next min(max, tail - head) elements enqueued, or leave the state as it was if there are none |
| SubQueueProof.ActionInv | project_about/feedproxy/public/concurrentqueue.h:1780-1976 | every step of the producer and of the consumers keeps the invariant of ring, index, flags and cells |
| SubQueueProof.LookupFindsSlot | project_about/feedproxy/public/concurrentqueue.h:1941-1944 | the quotient taken in unsigned words still gives the slot of the block, for indices in front of and behind the base |
| SubQueueProof.GrownHeader | project_about/feedproxy/public/concurrentqueue.h:2276-2313 | the doubled index lists all blocks of the ring, oldest first, from slot 0, and the front slot is the next free one |
| SubQueueProof.ReuseMemory | project_about/feedproxy/public/concurrentqueue.h:1788-1798 | taking the oldest block again, once all its flags are set, keeps every element that is still to be read |
| SubQueueProof.EmptyBlock | project_about/feedproxy/public/concurrentqueue.h:1483-1496 | a block whose flags are all set has only emptied indices |
| WsProtocol.WebSocket.Consume | project_about/feedproxy/thirdparty/uWS/WebSocketProtocol.h:329-369 | after any chunk, whatever was spilled or begun before, the parser's state and deliveries are those of the byte-at-a-time automaton |
| WsProtocol.WebSocket.OnData | project_about/feedproxy/thirdparty/uWS/WebSocket.cpp:191-204 | the same for the socket's entry point, which ignores data after a close |
| WsProtocol.WebSocket.ParseFrame | project_about/feedproxy/thirdparty/uWS/WebSocketProtocol.h:336-366 | one turn of the loop: a bad header closes, an incomplete one waits, a frame is consumed without touching the bytes after it |
| WsProtocol.WebSocket.ConsumeMessage | project_about/feedproxy/thirdparty/uWS/WebSocketProtocol.h:110-163 | a frame with its header here, whole or begun, is received as the automaton receives it |
| WsProtocol.WebSocket.ConsumeContinuation | project_about/feedproxy/thirdparty/uWS/WebSocketProtocol.h:165-202 | the same for the rest, or a piece of the rest, of a payload begun in an earlier chunk |
| WsProtocol.WebSocket.OpenFrame | project_about/feedproxy/thirdparty/uWS/WebSocketProtocol.h:111-126 | a frame is refused exactly when its opcode does not fit the opcode stack or its length is over the limit |
| WsProtocol.WebSocket.UnmaskWhole | project_about/feedproxy/thirdparty/uWS/WebSocketProtocol.h:128-138 | a whole payload unmasked to the left over its own header is the XOR with the mask, and no unread byte changes |
| WsProtocol.WebSocket.UnmaskPart | project_about/feedproxy/thirdparty/uWS/WebSocketProtocol.h:148-160 | the beginning of a payload likewise, and the mask kept for later is turned to the next payload byte |
| WsProtocol.WebSocket.UnmaskRest | project_about/feedproxy/thirdparty/uWS/WebSocketProtocol.h:166-173 | the rest of a payload in place, with the kept mask; nothing behind it changes |
| WsProtocol.WebSocket.UnmaskPiece | project_about/feedproxy/thirdparty/uWS/WebSocketProtocol.h:187-199 | a middle piece in place; whole groups of four reach only into the padding |
| WsProtocol.WebSocket.HandleFragment | project_about/feedproxy/thirdparty/uWS/WebSocket.cpp:321-425 | reassembly: the fragment buffer is the pending data followed by exactly `controlTipLength` control bytes, and the deliveries are those of the automaton |
| WsProtocol.WebSocket.DataFragment | project_about/feedproxy/thirdparty/uWS/WebSocket.cpp:325-372 | its data half, with the unbuffered shortcut for a message in one piece and the UTF-8 test for text |
| WsProtocol.WebSocket.ControlFragment | project_about/feedproxy/thirdparty/uWS/WebSocket.cpp:373-422 | its control half: control bytes are appended behind the pending data and removed again |
| WsUnmask.UnmaskImprecise | project_about/feedproxy/thirdparty/uWS/WebSocketProtocol.h:72-79 | groups of four moved left over their own mask give the XOR of the bytes read before, and touch at most four bytes more |
| WsUnmask.UnmaskInplace | project_about/feedproxy/thirdparty/uWS/WebSocketProtocol.h:94-101 | XOR with mask[i mod 4] in place, up to the next whole group |
| WsUnmask.UnmaskExactly | project_about/feedproxy/thirdparty/uWS/WebSocketProtocol.h:167-172 | whole groups and then single bytes: exactly the bytes asked for |
| WsUnmask.RotateMask | project_about/feedproxy/thirdparty/uWS/WebSocketProtocol.h:86-92 | turning right by an offset is turning left by what fills it up to whole turns |
| WsStream.RunConcat | project_about/feedproxy/thirdparty/uWS/WebSocketProtocol.h:329-369 | the automaton run over two chunks is the automaton run over their concatenation |
| WsStream.PartialHeader | project_about/feedproxy/thirdparty/uWS/WebSocketProtocol.h:350-365 | an incomplete header is only remembered |
| WsStream.MalformedHeader | project_about/feedproxy/thirdparty/uWS/WebSocketProtocol.h:339-344 | a header with reserved bits, a reserved opcode or an oversized or fragmented control frame closes, whatever follows |
| WsStream.ReservedBitsClose | project_about/feedproxy/thirdparty/uWS/WebSocketProtocol.h:339-344 | on the bits: a header with one of the bits 0x70 set, an opcode 3 to 7 or 11 to 15, or a control frame without the end flag or over 125 bytes closes, whatever follows; any other starts its frame as soon as it is complete |
| WsStream.WholeFrame | project_about/feedproxy/thirdparty/uWS/WebSocketProtocol.h:128-147 | an accepted header and its whole payload are the frame opened, its unmasked payload received, and ended |
| WsStream.FrameBegun | project_about/feedproxy/thirdparty/uWS/WebSocketProtocol.h:148-162 | an accepted header and part of its payload are the frame opened and that part received |
| WsStream.RefusedFrame | project_about/feedproxy/thirdparty/uWS/WebSocketProtocol.h:111-126 | a frame that is not accepted closes the connection |
| WsStream.BodyRun | project_about/feedproxy/thirdparty/uWS/WebSocketProtocol.h:187-201 | payload bytes that do not end the frame are received unmasked with the mask turned on |
| WsStream.BodyEnd | project_about/feedproxy/thirdparty/uWS/WebSocketProtocol.h:166-186 | the rest of a payload is received and ends the frame |
| WsSession.ReceiveAll | project_about/feedproxy/thirdparty/uWS/WebSocket.cpp:191-204 | chunks handed to `onData` one after the other, each in its own padded buffer, leave the socket as one run over all their bytes |
| WsSession.ChunkingIndependence | project_about/feedproxy/thirdparty/uWS/WebSocketProtocol.h:329-369 | two sockets in the same state that are given the same bytes, cut differently, end in the same state with the same deliveries, for any bytes |
| WsRoundTrip.FormatMessage | project_about/feedproxy/thirdparty/uWS/WebSocketProtocol.h:279-327 | the sender writes exactly the frame; read by section 5.2 of RFC 6455 from the wire alone it is final, without reserved bits, masked if and only if the sender is a client, with the opcode and payload given, and its length in the shortest form |
| WsRoundTrip.FormatHeader | project_about/feedproxy/thirdparty/uWS/WebSocketProtocol.h:280-308 | the header in its three lengths with flags, opcode and mask bit, and nothing behind it |
| WsRoundTrip.WireRoundTrip | project_about/feedproxy/thirdparty/uWS/WebSocketProtocol.h:279-327 | a reader that takes the mask bit and the form of the length from the wire gets back flags, opcode, key and payload of every frame encoded, whatever follows it |
| WsDelivery.HeaderReads | project_about/feedproxy/thirdparty/uWS/WebSocketProtocol.h:66-70 | the receiver's accessors read from a sent header the opcode, end flag, length and mask that went in |
| WsDelivery.FrameArrives | project_about/feedproxy/thirdparty/uWS/WebSocketProtocol.h:110-163 | a frame that fits and is not too long is received whole, unmasked, and ended |
| WsDelivery.DeliveredInOrder | project_about/feedproxy/thirdparty/uWS/WebSocket.cpp:321-425 | from any point between two frames, the application is given the messages and control frames of a well-formed peer in order with opcode and payload, up to and including the one on which it closes, up to the first text that is not UTF-8, and up to the first frame that is too long |
| WsDelivery.LongFrame | project_about/feedproxy/thirdparty/uWS/WebSocketProtocol.h:123-126 | a frame longer than the group allows closes the connection at its header |
| WsSession.RoundTrip | project_about/feedproxy/thirdparty/uWS/WebSocket.cpp:321-425 | a socket given the bytes of fragmented messages with control frames in between, in any chunks, has made exactly those handler calls |
| WsSession.Exchange | project_about/feedproxy/thirdparty/uWS/WebSocketProtocol.h:279-327 | messages, pings and pongs written by `formatMessage` and cut in any way by the network are heard as they were sent, by client and server |
| WsSession.Send | project_about/feedproxy/thirdparty/uWS/WebSocketProtocol.h:279-327 | calls of `formatMessage` put the frames on the wire one after the other, and any reader of section 5.2 takes exactly these messages off it, masked if and only if a client sent them |
| WsDelivery.OneFramePerMessage | project_about/feedproxy/thirdparty/uWS/WebSocketProtocol.h:279-327 | messages, pings and pongs sent by `formatMessage`, one frame each, are well formed and mean themselves |
| NetworkOrder.BigEndianBytes | project_about/feedproxy/thirdparty/uWS/WebSocketProtocol.h:285-293 | a length written in network byte order is read back |
| Utf8.IsValidUtf8 | project_about/feedproxy/thirdparty/uWS/WebSocketProtocol.h:213-248 | true exactly for concatenated encodings of Unicode scalar values (sections 3 and 4 of RFC 3629), with the four-byte fast path |
| Utf8.EncodingIsAccepted | project_about/feedproxy/thirdparty/uWS/WebSocketProtocol.h:219-244 | the branches accept the encoding of every scalar value, at its length |
| Utf8.AcceptedIsEncoding | project_about/feedproxy/thirdparty/uWS/WebSocketProtocol.h:219-244 | what the branches accept is the encoding of a scalar value: no overlong form, surrogate or value past the last |
| Utf8.FirstSequence | project_about/feedproxy/thirdparty/uWS/WebSocketProtocol.h:215-245 | validity goes by the first sequence and the rest |
| Utf8.FastPathIsAscii | project_about/feedproxy/thirdparty/uWS/WebSocketProtocol.h:216 | the 32-bit test holds exactly for four ASCII bytes |
| Utf8.ValidMultibyte | project_about/feedproxy/thirdparty/uWS/WebSocketProtocol.h:225-244 | each branch of the loop body decides the same as the encoding of the standard |
| LongestPalindrome.LongestPalindrome2 | algorithm_about/classic_problem/longest_palindrome.cpp:48-83 | a palindromic substring of maximum length for every string, '#' or not, and at most as many successful comparisons as the interleaved string is long |
| LongestPalindrome.Expand | algorithm_about/classic_problem/longest_palindrome.cpp:65-72 | the radius grows to the maximum, one for each successful comparison |
| LongestPalindrome.FirstRadius | algorithm_about/classic_problem/longest_palindrome.cpp:64 | the radius taken over from the mirror image is right, and can only grow where it ends at `mx` |
| LongestPalindrome.RadiusIsPalindrome | algorithm_about/classic_problem/longest_palindrome.cpp:82 | a maximal radius of the interleaved string is a palindrome of the string |
| LongestPalindrome.PalindromeHasRadius | algorithm_about/classic_problem/longest_palindrome.cpp:51-59 | and every palindrome of the string is such a radius |
| LongestPalindrome.BestRadiusIsLongest | algorithm_about/classic_problem/longest_palindrome.cpp:73-82 | the substring cut out at the end is a longest palindrome |
| LongestPalindrome.LongestPalindrome1 | algorithm_about/classic_problem/longest_palindrome.cpp:9-43 | the naive search returns a longest palindrome if and only if the length is not 1; then it returns the empty string |
| LongestPalindrome.CompareLR | algorithm_about/classic_problem/longest_palindrome.cpp:15-25 | moves outwards exactly as long as the characters match |
| LongestPalindrome.LongestLength | algorithm_about/classic_problem/longest_palindrome.cpp:9-83 | two longest palindromes have one length, so the two algorithms agree on it |
| RedBlackTree.Tree.AddNode | algorithm_about/binary_tree/RB_tree.cpp:156-187 | from a valid tree, insertion ends without a null dereference in a valid one: strictly ordered, parent links consistent, root black, exactly the value added, every old node in its place in the order; shape and colours are those of the repair model, and a red-black tree stays one if and only if no round turns a black node inwards |
| RedBlackTree.Tree.AddFixUp | algorithm_about/binary_tree/RB_tree.cpp:94-154 | the loop does all rounds of the model up to a parent that is not red: the same nodes and order, and exactly the shape and colours the rounds lead to, with a black root |
| RedBlackTree.Tree.FixStep | algorithm_about/binary_tree/RB_tree.cpp:98-152 | one round moves up the tree, keeps nodes, order and links, and changes shape and colours as one round of the model |
| RedBlackColors.RedBlackUnlessBroken | algorithm_about/binary_tree/RB_tree.cpp:94-154 | exact condition: a new red leaf in a red-black tree and the repair give a red-black tree if and only if no round turns a black node inwards; otherwise two red nodes lie in a row |
| RedBlackColors.RoundIsFine | algorithm_about/binary_tree/RB_tree.cpp:98-152 | every other round keeps equal black heights and leaves at most the node and its parent red in a row |
| RedBlackColors.InsertionBreaks | algorithm_about/binary_tree/RB_tree.cpp:112-119 | 35 inserted into a red-black tree of six nodes leaves 20 and its child 30 red |
| RedBlackColors.InsertionsBreak | algorithm_about/binary_tree/RB_tree.cpp:94-187 | seven insertions into an empty tree do the same |
| RedBlackTree.Tree.HasGrandparent | algorithm_about/binary_tree/RB_tree.cpp:100 | a red parent always has a parent |
| RedBlackTree.Tree.RebuildCon | algorithm_about/binary_tree/RB_tree.cpp:81-92 | comparing values picks the side the subtree was on |
| RedBlackTree.GapIsBetween | algorithm_about/binary_tree/RB_tree.cpp:85-90 | every node of a subtree compares with the parent of the subtree as its side says |
| RedBlackTree.Tree.Search | algorithm_about/binary_tree/RB_tree.cpp:159-173 | finds the value exactly if it is in the tree, else the one gap where it belongs |
| RedBlackTree.LL | algorithm_about/binary_tree/RB_tree.cpp:43-54 | the shape, child links and parent links after the rotation |
| RedBlackTree.RR | algorithm_about/binary_tree/RB_tree.cpp:56-67 | its mirror image |
| RedBlackTree.LR | algorithm_about/binary_tree/RB_tree.cpp:69-73 | the grandchild comes up between the two |
| RedBlackTree.RL | algorithm_about/binary_tree/RB_tree.cpp:75-79 | its mirror image |
| RedBlackTree.DoubleRotation | algorithm_about/binary_tree/RB_tree.cpp:69-79 | double rotations keep the nodes and their order, anywhere in a tree |
| BinaryTree.InOrderPlug | algorithm_about/binary_tree/RB_tree.cpp:81-92 | a subtree hung in a gap has its nodes between those before and after the gap |
| AvlTree.Build | algorithm_about/binary_tree/AVL_tree.cpp:297-310 | any run of insertions from nothing gives a strictly ordered tree, balanced everywhere, with exactly the values inserted and at least fib(h + 2) - 1 nodes |
| AvlTree.AddNodeRe | algorithm_about/binary_tree/AVL_tree.cpp:98-124 | insertion keeps order and balance, adds exactly the value, and leaves every other node in its place |
| AvlTree.RestoreRight | algorithm_about/binary_tree/AVL_tree.cpp:105-112 | the height test and the choice of the rotation restore balance after an insertion on the right |
| AvlTree.RestoreLeft | algorithm_about/binary_tree/AVL_tree.cpp:115-122 | the same on the left |
| AvlTree.RightTooHigh | algorithm_about/binary_tree/AVL_tree.cpp:105-111 | the rotation chosen by comparing the value is the one that balances |
| AvlTree.BalancedIsFull | algorithm_about/binary_tree/AVL_tree.cpp:98-124 | a balanced tree of height h has at least fib(h + 2) - 1 nodes |
| AvlTree.GetHeight | algorithm_about/binary_tree/AVL_tree.cpp:14-20 | the height of the tree the nodes form |
| AvlTree.LL | algorithm_about/binary_tree/AVL_tree.cpp:22-28 | the shape after the rotation |
| AvlTree.RR | algorithm_about/binary_tree/AVL_tree.cpp:29-35 | its mirror image |
| AvlTree.DelNodeRe | algorithm_about/binary_tree/AVL_tree.cpp:210-274 | from any ordered tree the node with the value goes, and all others stay in order |
| AvlTree.RemoveRoot | algorithm_about/binary_tree/AVL_tree.cpp:239-272 | the three cases of unlinking keep all other nodes in order |
| AvlTree.ReplaceByPredecessor | algorithm_about/binary_tree/AVL_tree.cpp:257-270 | the last node of the left subtree takes the place of the root |
| AvlTree.TurnAfterRight | algorithm_about/binary_tree/AVL_tree.cpp:217-225 | the rotation chosen by a null test never meets a null and keeps nodes and order |
| AvlTree.TurnAfterLeft | algorithm_about/binary_tree/AVL_tree.cpp:229-237 | the same on the other side |
| AvlTree.DeletedKeys | algorithm_about/binary_tree/AVL_tree.cpp:210-274 | the keys after a deletion are the old ones without the value |
| SendStream.Conservation | project_about/feedproxy/thirdparty/uWS/Socket.h:227-350 | over any run of writes, flushes and ends with any kernel answers, bytes sent followed by bytes queued are the accepted messages in order; after an end, a prefix of them was sent |
| SendStream.WriteConserves | project_about/feedproxy/thirdparty/uWS/Socket.h:304-350 | one write loses, repeats and reorders nothing |
| SendStream.FlushConserves | project_about/feedproxy/thirdparty/uWS/Socket.h:227-256 | one flush loses, repeats and reorders nothing, for any sequence of partial sends |
| SendStream.FlushAnswers | project_about/feedproxy/thirdparty/uWS/Socket.h:227-256 | by the answers alone: the messages taken whole before the first other answer are sent and called back in order, not cancelled; a fatal answer then closes the socket and cancels the rest in order; any other leaves it open with the rest queued, the front shortened by what was taken |
| SendStream.Stops | project_about/feedproxy/thirdparty/uWS/Socket.h:227-256 | there is exactly one such point |
| SendStream.WriteAnswers | project_about/feedproxy/thirdparty/uWS/Socket.h:304-350 | by the answer alone: refused if and only if it is fatal on an empty queue, then nothing changes; else sent, shortened or queued whole |
| SocketQueue.Queue.Push | project_about/feedproxy/thirdparty/uWS/Socket.h:63-73 | the linked queue with the message at its end |
| SocketQueue.Queue.Pop | project_about/feedproxy/thirdparty/uWS/Socket.h:48-58 | the linked queue without its front message |
| SocketQueue.Socket.Write | project_about/feedproxy/thirdparty/uWS/Socket.h:304-350 | the linked queue, its messages shortened in place and the answer to the caller are those of the stream model, and those the kernel answer asks for |
| SocketQueue.Socket.Flush | project_about/feedproxy/thirdparty/uWS/Socket.h:227-256 | the same for the flush loop and its callbacks: which messages go, which are cancelled and whether the socket stays open follow from the answers |
| SocketQueue.Socket.OnEnd | project_about/feedproxy/thirdparty/uWS/WebSocket.cpp:301-307 | a closed socket cancels all that waits, in order |
| SharedBuffers.FreedExactlyOnce | project_about/feedproxy/thirdparty/uWS/WebSocket.cpp:128-188 | in every run a prepared buffer's count is its handle plus its unsettled sends, it is freed exactly once when both are gone, and nothing freed is touched |
| SharedBuffers.QueuedBufferIsAlive | project_about/feedproxy/thirdparty/uWS/WebSocket.cpp:151-188 | as long as any socket's queue points into a buffer, it is alive |
| SharedBuffers.DoInv | project_about/feedproxy/thirdparty/uWS/WebSocket.cpp:75-188 | every send, flush, end and finalize keeps the counts exact |
| SharedBuffers.FlushCounts | project_about/feedproxy/thirdparty/uWS/Socket.h:227-256 | every message that leaves a queue has its callback called exactly once |
| Timers.Loop.FireDue | project_about/feedproxy/thirdparty/uWS/Epoll.cpp:38-61 | for any finite script of clock answers and callbacks: what is due is judged at the clock plus the time passed, nothing fires if nothing is due, the entries fired and the vector left are exactly those of the rounds, it stays sorted, and unless the script runs out the loop ends with nothing due |
| Timers.Loop.FireFront | project_about/feedproxy/thirdparty/uWS/Epoll.cpp:40-56 | fires the front entry, which never fired before; the vector, its numbers and the clock afterwards are exactly what the callback leaves, without the front entry and with one new entry if and only if it repeats and was not stopped |
| Timers.RoundArms | project_about/feedproxy/thirdparty/uWS/Epoll.cpp:46-55 | a round arms as many entries as its callback starts, and one more if and only if the timer repeats and the callback did not stop it: a one-shot timer stays away |
| Timers.Loop.EraseFront | project_about/feedproxy/thirdparty/uWS/Epoll.cpp:50-55 | the entry erased after the callback is the one whose callback ran, and it is armed again if and only if it repeats |
| Timers.Loop.Perform | project_about/feedproxy/thirdparty/uWS/Epoll.h:81-126 | the vector is exactly what the starts and stops leave, and unless one stops the running timer, that timer's entry stays in front |
| Timers.Loop.StartTimer | project_about/feedproxy/thirdparty/uWS/Epoll.h:81-97 | the entry goes behind all that are due no later, and the delay is that of the front entry |
| Timers.Loop.StopTimer | project_about/feedproxy/thirdparty/uWS/Epoll.h:108-126 | exactly the first entry of the timer goes, and it counts as cancelled unless it is the one that has just fired |
| Timers.ExactlyOneFate | project_about/feedproxy/thirdparty/uWS/Epoll.cpp:38-61 | each entry ever armed is pending, fired once, or cancelled, and only one of these |
| RadixSort.RadixSort | algorithm_about/sort_about/radix_sort.cpp:23-49 | for non-negative input the result is the input ordered by the value modulo 10^MaxBit, ties in original order, where MaxBit is one more than the longest chain |
| RadixSort.PassSortsOneMore | algorithm_about/sort_about/radix_sort.cpp:30-48 | a pass over numbers stably sorted by i digits leaves them stably sorted by i + 1 digits |
| RadixSort.MaxBit | algorithm_about/sort_about/radix_sort.cpp:9-21 | the result is one more than the length of the longest chain: places from left to right whose numbers have at least 2, 3, 4, ... digits |
| RadixSort.LongestChainIsLongest | algorithm_about/sort_about/radix_sort.cpp:13-19 | taking each chance to count a digit as it comes misses no longer chain |
| RadixSort.CountDigits | algorithm_about/sort_about/radix_sort.cpp:32-36 | how many numbers have each digit |
| RadixSort.SumCounts | algorithm_about/sort_about/radix_sort.cpp:37-40 | where the bucket of each digit ends |
| RadixSort.Place | algorithm_about/sort_about/radix_sort.cpp:41-45 | the numbers bucket by bucket, each bucket in original order |
| RadixSort.SortedIffLowPartsAgree | algorithm_about/sort_about/radix_sort.cpp:23-49 | stopping at any power of ten, the result is sorted if and only if numbers that differ above it are already in order below it |
| RadixSort.EnoughDigits | algorithm_about/sort_about/radix_sort.cpp:9-21 | 10^MaxBit exceeds every value if and only if the input has a chain with one number fewer than the largest value has digits |
| RadixSort.SortedWithChain | algorithm_about/sort_about/radix_sort.cpp:23-49 | with such a chain the result is sorted |
| RadixSort.TooFewDigits | algorithm_about/sort_about/radix_sort.cpp:9-21 | 1000, 1 has no such chain and is not sorted |
| CircularBuffer.Buffer.Push | project_about/feedproxy/public/eddid_cricular_buffer.h:95-126 | appends and evicts only the oldest; data and free list stay disjoint and acyclic, capacity + 1 nodes together, one at least free |
| CircularBuffer.Buffer.Pop | project_about/feedproxy/public/eddid_cricular_buffer.h:137-150 | drops the oldest, if any, and reuses its node |
| CircularBuffer.Buffer.Back | project_about/feedproxy/public/eddid_cricular_buffer.h:153-155 | the newest |
| CircularBuffer.Buffer.Resize | project_about/feedproxy/public/eddid_cricular_buffer.h:158-199 | growing, or shrinking to no less than is stored, keeps the contents |
| CircularBuffer.Buffer.constructor | project_about/feedproxy/public/eddid_cricular_buffer.h:67-77 | an empty buffer with capacity + 1 free nodes |
| CircularBuffer.ContentsAreNewest | project_about/feedproxy/public/eddid_cricular_buffer.h:95-199 | over any run the contents are the newest n of what was there and what was pushed, in order, n growing by a push up to the capacity, shrinking by a pop, and staying on a resize |
| CircularBuffer.PushesFillWindow | project_about/feedproxy/public/eddid_cricular_buffer.h:95-126 | pushes alone leave the newest of all, as many as the capacity allows |
| CircularBuffer.Execute | project_about/feedproxy/public/eddid_cricular_buffer.h:95-199 | any run of calls on a buffer does to its two lists what the run does to the window |
| SimpleWebSocket.RoundTrip | third_party_about/websocket/ws_proto.hpp:58-186 | for every payload and package size, parsing the packages in any chunks that leave no single byte delivers the payload once, with the opcode if there is one package |
| SimpleWebSocket.PackMsg | third_party_about/websocket/ws_proto.hpp:121-186 | the packages are the encodings of the message's fragments |
| SimpleWebSocket.PackOne | third_party_about/websocket/ws_proto.hpp:138-184 | one package: head, length in its three forms, mask and data masked in place |
| SimpleWebSocket.PackageIsFrame | third_party_about/websocket/ws_proto.hpp:138-184 | read by section 5.2 of RFC 6455 from the wire alone, a package is the fragment: end flag, opcode, mask bit, key and data, with no reserved bit |
| SimpleWebSocket.Refused | third_party_about/websocket/ws_proto.hpp:63-89 | on the bits: exactly fewer than two bytes, an opcode 3 to 8 or 11 to 15, or a length over the limit, is refused, with both caches emptied; reserved bits are not looked at |
| SimpleWebSocket.FrontIsFragment | third_party_about/websocket/ws_proto.hpp:63-98 | the head, length and data read from the front of the cache are those of the fragment sent, as soon as it is complete |
| SimpleWebSocket.ParsePrefix | third_party_about/websocket/ws_proto.hpp:58-110 | the exact status and state after any prefix of a stream: an error if and only if one byte is left over |
| SimpleWebSocket.StreamReceived | third_party_about/websocket/ws_proto.hpp:58-110 | a stream cut into chunks that leave no single byte is received fragment by fragment |
| SimpleWebSocket.FragmentsMean | third_party_about/websocket/ws_proto.hpp:121-137 | the fragments of a message put together are the message |
| SimpleWebSocket.Proto.ParseMsg | third_party_about/websocket/ws_proto.hpp:58-110 | the loop over the two caches computes the state of the parser the lemmas speak of |
| LogLine.RoundTrip | project_about/nano_log/eddid_nano_logger.h:133-324 | every sequence of values written with `<<` is read back in order, null and empty strings dropped |
| LogLine.Decode | project_about/nano_log/eddid_nano_logger.h:274-324 | reads exactly the values whose encodings fill the buffer from `start` to `end` |
| LogLine.DecodeOne | project_about/nano_log/eddid_nano_logger.h:254-272 | one value and where it ends |
| LogLine.Line.ResizeBuffer | project_about/nano_log/eddid_nano_logger.h:201-218 | makes room, and every growth keeps the bytes written |
| LogLine.Line.Encode | project_about/nano_log/eddid_nano_logger.h:247-251 | the record with the tag and the bytes of a number at its end, within the buffer |
| LogLine.Line.EncodeStr | project_about/nano_log/eddid_nano_logger.h:221-238 | the record with tag, characters and terminator of a string at its end, or unchanged |
| LogLine.Line.Write | project_about/nano_log/eddid_nano_logger.h:147-156 | what `<<` adds for each kind of value |

## Left out

Free list and queue

- Memory orders weaker than sequential consistency, and fences.
- The queue beyond one explicit sub-queue: implicit producers and their block path, the producer hash, `enqueue_bulk`, tokens, move, swap and debug code.
- Blocks of more than 32 elements: `BLOCK_SIZE` is the default 32, for which a block has one flag for each element. Larger blocks, which the log queue (64) and the zeromq wrapper (256) use, count in `elementsCompletelyDequeued` instead; that path and its assertions are not modelled.
- Exceptions thrown by element constructors, and the limit `MAX_SUBQUEUE_SIZE`.
- Indices more than 2^63 apart: the ticket theorems assume that a consumer's numbers do not lap while it looks at them.
- `& (size - 1)` is modelled as the remainder by the size, a power of two.
- The `is_empty` scan is modelled as one answer that may always be "no".
- `RoughLockFreeQueue`: it returns the data of its dummy node and frees shared nodes.

WebSocket

- permessage-deflate: a frame with RSV1 set closes the connection.
- The pong that answers a ping and the close frame that answers a close are not part of the delivery log.
- TLS, sockets, epoll, the HTTP upgrade and the contents of close frames.
- WsSession.RoundTrip: assumes a sender that does not open a message inside another one; the receiver accepts that on line 112, and the automaton models it.
- The application is a function from what it was given so far to whether it closes; sends from inside a callback are not modelled.
- Lengths at the limits of 32-bit and 64-bit size types in the receive buffer and in ws_proto.hpp.

Algorithms

- Red-black deletion and `DelFixUp`.
- A red-black node's value is a constant, because insertion never assigns it.
- Balance after an AVL deletion, and the iterative `AddNode` and `DelNode`.
- Deleting an AVL node is unlinking it; its memory is not modelled.
- RadixSort.RadixSort: numbers are unbounded, so the overflow of `radix` for values from 10^9 on is not modelled; negative input is excluded. The vectors the code swaps are two arrays, of which the sorted one is returned.
- `quick_sort`, `counting_sort` and `max_heap` do not meet the contract one would state for them; merge sort, heap sort and maximum subarray are textbook.

Event loop and small structures

- Timers.Loop.FireDue: the clock's progress and what callbacks do are given as a finite script; callbacks start and stop timers and do nothing else. Overflow of the time arithmetic is not modelled.
- The buffer's mutex, `front`, the branch of `resize` that drops data, capacity 0 and capacity 2^32 - 1.
- The log record's `get_level`, the key fields of the line, the text form of each value, and pointers to constant strings (tag 11), which no write produces.

Elsewhere

- `ConvertService`, the `uws_client` variants, kafka, redis, zookeeper, zmq, rocksdb, SQL, file cropping, design patterns and generated protobuf code: plumbing and library wrappers.
