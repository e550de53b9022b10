# RDMA transport: a verified model

This project models the bookkeeping of the RDMA transport code, in the prototype (`debug/`) and in its port to the
messenger (`rdma/`), and proves what that bookkeeping keeps. The device is an environment that may act between any two
steps: it chooses when posted operations execute, how completions are batched, when events are raised and which calls
fail. Sizes (slot size, number of slots, chunk size, slices of the table) are arbitrary positive numbers.

| module | models |
|---|---|
| `Ring`, `RingRun`, `Verbs` | the receive ring: one coalescing read, posting, and whole runs of arrivals and reads |
| `Notify`, `TxWorker` | drain, rearm, drain again against a device that completes at any moment; the transmit handler run against it |
| `TxPool`, `Chunks`, `Packing`, `TxSend` | ownership of the transmit chunks over whole runs; packing a buffer list into chained work requests; the real sends as steps of the ownership model |
| `Receive` | the socket's read: buffered chunks, then completions, and how one call splits the stream |
| `Bulk`, `Counting`, `BulkTransfer` | slicing a region, the cyclic table of remote slices, counting completions |
| `Formats`, `Gid`, `Messages`, `Datagram`, `SliceTable` | printf and scanf (ISO C11 sections 7.21.6.1 and 7.21.6.2) and every message built with them |
| `Handshake` | the exchange over TCP and the queue pair transitions, in every interleaving |
| `HugePages` | the allocator with its hidden header page, over runs of allocations, writes and frees |
| `TestStream`, `TestClient`, `EndToEnd` | the letter pattern and the checking server; the stop-and-wait client; both through the receive ring |

`Bytes`, `Modular` and `Words` hold concatenation, block copy, remainders, rounded-up division and word sizes.
`Times(n, size)` is `n * size`, kept as a sum (`Bytes.TimesIsProduct`).

## What the code turned out not to do

Each of these is proved: as an if-and-only-if, as a branch of the contract named, or as the equation named.

- `query` asks with flag 3, which `rdma_query_cq` refuses, so `read` as written always returns 0 and changes nothing:
  the last clause of `Ring.Session.Read`. The read is proved for the receive flag as well.
- `start_remote` takes one message and steps one slot whatever its query consumed, failed or not: right only for one
  (`RingRun.StartRemoteKeepsIff`). The index is not reduced, so a ring of one slot fails as well.
- A query that fails on one completion has consumed its whole batch, while `read` returns 0 and stays where it is: right
  only if it consumed nothing, or a whole lap of empty messages (`RingRun.FailedReadKeepsIff`).
- A second `post_recv` starts over at slot 0: right only after whole laps (`RingRun.PostKeepsIff`). With the constants
  of `init`, 16000 receives over 1024 slots are not whole laps.
- Nothing stops a peer from overrunning the ring: the next arrival is safe, whatever it holds, exactly while the unread
  messages in its slot, if there are any, are empty (`RingRun.ArriveSafeIff`).
- A failed request for notification is only logged: from then on no completion wakes the handler
  (`Notify.NoLostWakeupIff`, `Notify.DeafForever`).
- A send of no bytes posts the whole free list and keeps it (`TxPool.SendKeepsIff`).
- Chunks are returned to another list than sends take from, so the source list is never refilled
  (`TxPool.SourceOnlyShrinks`); a send that finds too few writes through an end iterator (`Packing.SendInsideIff`).
- A block of chunks of 2^32 bytes or more gets fewer chunks than asked for (`Chunks.AddsAllIff`).
- `Chunk::read` winds the offset back when it reads past the end: the next `read_buffers` call goes on where this one
  stopped exactly if this one stayed within the first chunk (`Receive.NextCallContinuesIff`).
- A bulk transfer of more slices than table entries overwrites its own beginning (`Bulk.BulkImageIff`).
- Completions left over from an earlier call, such as a bulk whose post was rejected leaves, are counted as the next
  call's own. Where nothing fails, bulk then ends quiet under no schedule (`Counting.CountQuietIff`); some schedule makes
  it answer 0 before its last slice is written (`Counting.EndsEarlyIff`), or count past the number posted
  (`Counting.OvershootIff`), after which `ack != num` never ends (`Counting.CountPast`).
- `latency(0)` on a quiet session waits for a completion nobody posted: no poll ever answers
  (`BulkTransfer.LatencyEndsIff`, `Counting.NothingAnswers`).
- The test client ignores the result of every post but the first. It comes to an end exactly if its first post is
  rejected, or every later post that it gets to query for is accepted (`TestClient.ClientEndsIff`): behind a rejected one
  no poll ever answers (`TestClient.PostAnsweredIff`). A rejected last post goes unnoticed (`TestClient.Sender.Client`).
- Addresses of more than 16 digits do not fit the handshake message (`Messages.HandshakeRoundTripIff`) or the slice
  table (`SliceTable.RecordRoundTripIff`). The table's last terminator is one character behind the `num*25` the source
  reserves (`SliceTable.TableFitsIff`).
- The datagram scans a 32-bit number into the 16-bit `lid`: repaired by the later stores on a little-endian host, but on
  a big-endian host `lid` arrives as 0 (`Datagram.DatagramRoundTripIff`).
- The allocator's size rounding wraps for sizes within two pages of 2^64 (`HugePages.RealSizeIff`).

## Model

| member | source | states |
|---|---|---|
| `Verbs.QueryCq` | debug/rdma_socket.c:587-638 | on either queue, of the polls in order the first that fails or is not empty decides: all its completions if every one succeeded, otherwise -1 and nothing; flags other than 1 and 2 are refused |
| `Verbs.FirstAnswer` | debug/rdma_socket.c:618-625 | the poll the loop stops at is one of those answered and not an empty one |
| `Verbs.QueryBatch` | debug/rdma_socket.c:588-594 | a non-empty result is a whole polled batch without failed entries |
| `Verbs.QueryBatchIs` | debug/rdma_socket.c:615-636 | the result of a query on either queue is all of the first non-empty poll, or nothing exactly if that fails or brings a failed entry; what the poll brought is consumed in any case |
| `Ring.Session.constructor` | debug/rdma_session.cpp:85-106 | the ring of slots is allocated, recv_index is 0 and nothing is posted |
| `Ring.Session.PostRecv` | debug/rdma_session.cpp:360-372 | slots 0, 1, ... modulo recv_nums are posted, at most 16000, up to a rejected post; posted_recv grows only if none is rejected |
| `Ring.Session.Query` | debug/rdma_session.cpp:292-301 | posted_recv drops by the number of entries of the batch whose id is that of a receive, and not at all on failure |
| `Ring.ReceivesCount` | debug/rdma_session.cpp:295-298 | the completions counted are exactly those with the id of posted receives |
| `Ring.Session.StartRemote` | debug/rdma_session.cpp:33-43 | steps one slot whatever the query brought, even if it failed, without reducing the index |
| `Ring.Session.ReadBatch` | debug/rdma_session.cpp:242-289 | for any ring, index and batch of at most recv_nums completions, dest gets exactly each slot's first byte_len bytes in order and nothing else changes there; the result is their length; recv_index advances by the batch size modulo recv_nums |
| `Ring.Session.Read` | debug/rdma_session.cpp:238-290 | the same behind the query; with any flag but 1 and 2 it returns 0 and changes nothing |
| `Ring.StraightRun` | debug/rdma_session.cpp:245-250 | the slot-by-slot copy of a run of full slots and a last one is one contiguous block where it does not pass the ring end |
| `Ring.WrappedBlocks` | debug/rdma_session.cpp:251-259 | a run past the ring end is exactly two blocks, the second from slot 0; one wrap is enough for a batch of at most recv_nums |
| `RingRun.PostKeepsIff` | debug/rdma_session.cpp:360-372 | posting keeps slots and recv_index aligned exactly when it posts nothing or the receives so far are whole laps |
| `RingRun.ArriveKeeps` | debug/rdma_session.cpp:100-106 | an arrival into a slot without a non-empty unread message keeps every unread message intact |
| `RingRun.ArriveClobbers` | debug/rdma_session.cpp:360-368 | where the next slot still holds a non-empty unread message, there is a next message that destroys it |
| `RingRun.ArriveSafeIff` | debug/rdma_session.cpp:360-368 | every next message is safe exactly while the unread messages in its slot, if there are any, are empty; for any number unread |
| `RingRun.GatherIsMessages` | debug/rdma_session.cpp:242-289 | what a read gathers from the slots is the oldest unread messages, concatenated |
| `RingRun.ReadKeeps` | debug/rdma_session.cpp:238-290 | a read keeps the invariant: output is the messages polled, recv_index names the oldest unread slot |
| `RingRun.StartRemoteKeepsIff` | debug/rdma_session.cpp:36-42 | the start-up step keeps the invariant exactly if its query consumed one message, in a ring of more than one slot |
| `RingRun.FailedReadKeepsIff` | debug/rdma_socket.c:627-632 | a read whose query fails keeps the invariant exactly if the query consumed nothing, or a lap of empty messages |
| `RingRun.StepKeeps` | debug/rdma_session.cpp:70-72 | every guarded step keeps the invariant |
| `RingRun.StreamDelivered` | debug/rdma_session.cpp:238-290 | over any legal run, the reads' output followed by the unread slots is all messages after the start-up one, in order |
| `RingRun.RunPost` | debug/rdma_session.cpp:360-372 | post_recv takes the posting step of the runs, up to a rejected post |
| `RingRun.RunArrive` | debug/rdma_session.cpp:360-368 | a message written to the slot of the oldest posted receive is the arrival step |
| `RingRun.RunStartRemote` | debug/rdma_session.cpp:68-72 | door and start_remote take the start-up step |
| `RingRun.RunRead` | debug/rdma_session.cpp:238-290 | read takes the reading step, and writes what that step returns |
| `RingRun.RunFailedRead` | debug/rdma_session.cpp:238-242 | a read whose query fails takes that step and copies nothing |
| `Notify.NoLostWakeupIff` | rdma/RDMAStack.cc:143-178 | in every interleaving, an idle handler can still be reached by a completion if and only if every rearm of the run succeeded |
| `Notify.PhaseOfRun` | rdma/Infiniband.cc:386-404 | arming and events stand as the phase demands from the initial arm on; after a failed rearm the handler is deaf |
| `Notify.DeafForever` | rdma/Infiniband.cc:342-350 | once idle and deaf, no run of any kind handles another completion |
| `Notify.StepAccounted` | rdma/Infiniband.cc:362-384 | each step keeps completions in order between handled, polled and queued, and events acknowledged in blocks of 128 |
| `Notify.RunAccounted` | rdma/RDMAStack.cc:151-176 | the same over whole runs: nothing is lost, repeated or reordered |
| `Notify.RunFlows` | rdma/RDMAStack.cc:151-176 | over any run, failed requests and all: only what was pushed meanwhile joins the flow of handled, polled and queued chunks, at its end |
| `Notify.QuietMeansAllHandled` | rdma/RDMAStack.cc:167-176 | an idle handler without a pending event has handed back every completed chunk, in order, if every rearm succeeded |
| `Notify.HandlerEnds` | rdma/RDMAConnectedSocketImpl.cc:98-135 | with the device silent the loop takes a bounded number of steps, and where it can go no further it is idle with an empty queue, or aborted |
| `TxWorker.Worker.constructor` | rdma/RDMAStack.cc:135-141 | a new worker is in the initial state of the protocol |
| `TxWorker.Worker.GetCqEvent` | rdma/Infiniband.cc:362-384 | consumes one event if there is one, acknowledging 128 at a time |
| `TxWorker.Worker.HandleBatch` | rdma/RDMAStack.cc:156-165 | hands back the chunks of a batch in order, stopping at a failed completion |
| `TxWorker.Worker.HandleTxEvent` | rdma/RDMAStack.cc:143-178 | whatever the device does around its steps, a call with an event consumes one, hands back in order all that was queued or came in, requests notification and ends on an empty poll, with the worker reachable if the request succeeded; or it hit a failed completion. With the device silent and no failed completion it empties the queue |
| `Modular.PiecesIsLeast` | rdma/Infiniband.h:337-339 | the number of chunks taken, and of slices cut, is the least that holds the bytes |
| `TxPool.SendKeepsIff` | rdma/Infiniband.h:333-335 | a send keeps every chunk in one place exactly when it has bytes to send or the device accepts nothing |
| `TxPool.FinishHeld` | rdma/RDMAStack.cc:156-165 | a completion, in any order, moves its chunk and no other |
| `TxPool.StepHeld` | rdma/RDMAConnectedSocketImpl.cc:214-220 | every step keeps the number of occurrences of every chunk, with those of a failed post counted as lost |
| `TxPool.EachChunkInOnePlace` | rdma/Infiniband.h:382-396 | in every reachable state of a run without empty sends each chunk of the pool is in exactly one place, once, and nothing else is anywhere |
| `TxPool.SourceOnlyShrinks` | rdma/Infiniband.h:382-384 | the source list plus the chunks spent is constant: no run spends more chunks than the pool had |
| `Chunks.Chunk.Read` | rdma/Infiniband.h:267-282 | copies from the offset on, at most to the end; a read past the end winds the offset back to 0 |
| `Chunks.Chunk.Write` | rdma/Infiniband.h:284-298 | appends what fits behind the offset |
| `Chunks.Cluster.Add` | rdma/Infiniband.h:316-326 | adds fresh empty chunks of the chunk size which share nothing, as many as the 32-bit block holds |
| `Chunks.AddsAllIff` | rdma/Infiniband.h:316-320 | those are as many as asked for exactly if their sizes sum to less than 2^32 |
| `Chunks.Cluster.WithChunks` | rdma/Infiniband.h:312-314 | a new pool is such chunks |
| `Chunks.Cluster.TakeBack` | rdma/Infiniband.h:328-331 | appends the chunk to the free list |
| `Chunks.Cluster.GetBuffers` | rdma/Infiniband.h:333-350 | takes the least number of chunks from the back, none if there are too few; for 0 bytes answers the whole list and keeps it |
| `Packing.TotalLength` | rdma/RDMAConnectedSocketImpl.cc:154-159 | the sum of the buffer lengths is the length of their concatenation |
| `Packing.RoomLeft` | rdma/RDMAConnectedSocketImpl.cc:170-178 | while bytes remain, the current chunk is not past the last |
| `Packing.PackMore` | rdma/RDMAConnectedSocketImpl.cc:172-177 | one write keeps the chunks before the current one full, those behind empty, and their concatenation the bytes copied |
| `Packing.PackAll` | rdma/RDMAConnectedSocketImpl.cc:164-180 | the nested loops end with the whole concatenation of the buffers in the chunks |
| `Packing.PackedIsImage` | rdma/RDMAConnectedSocketImpl.cc:162-180 | with the least number of chunks all are full but the last, which is not empty |
| `Packing.BuildChain` | rdma/RDMAConnectedSocketImpl.cc:182-212 | one work request per chunk, of the length written, linked to the next and the last to none |
| `Packing.ChainIsAll` | rdma/RDMAConnectedSocketImpl.cc:196-208 | following the links from the first request visits all of them in order, once |
| `Packing.TakeChunks` | rdma/RDMAConnectedSocketImpl.cc:162 | the chunks taken hold the bytes exactly if the pool had enough, are then the least number, and stay apart from those left; with too few, none |
| `Packing.SendInsideIff` | rdma/RDMAConnectedSocketImpl.cc:164-178 | the copy loop stays inside the chunks taken exactly if the free list had enough |
| `Packing.Send` | rdma/RDMAConnectedSocketImpl.cc:153-225 | the linked requests carry exactly the concatenation of the buffers, all chunk_size long but a non-empty last one; the result is the byte count, or -1 on a failed post, and only success clears the list; the free list stays ready for the next send |
| `TxSend.RunSend` | rdma/RDMAConnectedSocketImpl.cc:162-220 | under any numbering of the chunks, a send is the sending step of the ownership model, with the chunks of its requests in flight up to the first rejected |
| `TxSend.RunReturn` | rdma/RDMAStack.cc:164 | the return of a polled chunk is the handling step |
| `TxSend.PoolHasNoRepeats` | rdma/Infiniband.h:316-326 | a pool of separate chunks is a pool the ownership theorem starts from |
| `Receive.Socket.ReadBuffers` | rdma/RDMAConnectedSocketImpl.cc:138-147 | returns the prefix of what is behind the offsets, up to the chunks' capacity, and leaves the chunks drained as specified |
| `Receive.NextCallContinuesIff` | rdma/Infiniband.h:276-280 | the chunks afterwards hold what follows the bytes returned exactly when the call stayed within the first chunk |
| `Receive.Socket.Take` | rdma/RDMAConnectedSocketImpl.cc:111-120 | a completion is copied while there is room, and its chunk kept once it fills the request |
| `Receive.SplitNext` | rdma/RDMAConnectedSocketImpl.cc:111-120 | one completion keeps the split between bytes returned and bytes kept |
| `Receive.Socket.TakeAll` | rdma/RDMAConnectedSocketImpl.cc:98-133 | of the polls in order, exactly the completions before the first empty one and those between it and the second are taken, or all there are if the polls run out, a failed poll being repeated; each in order |
| `Receive.YieldedIs` | rdma/RDMAConnectedSocketImpl.cc:98-133 | the same on the polls alone: drain up to the first empty poll, rearm, drain up to the second, and nothing behind it |
| `Receive.BehindIsRest` | rdma/RDMAConnectedSocketImpl.cc:111-117 | the chunks kept, from offset to byte_len in order, hold exactly the suffix not returned |
| `Receive.Socket.Read` | rdma/RDMAConnectedSocketImpl.cc:84-136 | takes the completions up to the second empty poll; returns what the buffered chunks held and then the prefix of their payloads, up to len in all; the kept chunks hold exactly the remaining suffix |
| `Bulk.CutIsWhole` | debug/rdma_session.cpp:154-169 | the slices concatenate to the region |
| `Bulk.CutCount` | debug/rdma_session.cpp:148-151 | the number of slices is the size divided by the slice size, rounded up |
| `Bulk.SliceIs` | debug/rdma_session.cpp:154-169 | slice k is bytes k * gap to (k + 1) * gap of the region, or to its end |
| `Bulk.LastWriteStays` | debug/rdma_session.cpp:131-145 | each table entry ends up holding the last slice written to it |
| `Bulk.OthersKept` | debug/rdma_session.cpp:138-139 | remote bytes outside the slices written are unchanged |
| `Bulk.BulkImage` | debug/rdma_session.cpp:147-175 | with an entry for every slice, the table read cyclically from the old rdma_index is the source |
| `Bulk.BulkImageAt` | debug/rdma_socket.c:564-573 | for a table without all-zero entries, slice k lies at remote address raddrs[(rdma_index + k) modulo the entries] |
| `Bulk.BulkImageIff` | debug/rdma_session.cpp:131-145 | that holds for every source of a size exactly when there are no more slices than entries |
| `Counting.AskIsQuery` | debug/rdma_socket.c:615-636 | one query against the device is the polling loop run on the polls its schedule gives; a failed one has taken its batch as well |
| `Counting.AskFailsIff` | debug/rdma_socket.c:618-634 | a query answers -1 exactly if the poll that ends it fails or brings a failed completion |
| `Counting.GivesUpIff` | debug/rdma_session.cpp:179-185 | the counting loop gives up exactly if one of the device's polls fails or brings a failed completion at which the completions brought so far were at no time the number due; polls left for later calls do not matter |
| `Counting.NothingAnswers` | debug/rdma_socket.c:618-625 | with nothing posted or completed, no schedule of unfailing polls ever lets the query end |
| `Counting.CountTakesDue` | debug/rdma_session.cpp:179-185 | a loop that ends well took exactly the number due; what was outstanding before still is |
| `Counting.CountEnds` | debug/rdma_session.cpp:179-185 | where exactly what is outstanding is due, the loop ends under every schedule |
| `Counting.CountPast` | debug/rdma_session.cpp:179-185 | once more were counted than posted, no schedule lets the loop end well, and without failures it never ends |
| `Counting.CountQuietIff` | debug/rdma_session.cpp:172-185 | under any schedule without failures, the loop ends with nothing outstanding exactly if nothing was outstanding before the posts |
| `Counting.OvershootIff` | debug/rdma_session.cpp:179-185 | some schedule makes the loop count past the number posted exactly if completions were outstanding before, a poll can bring two, and those completed before are not taken for all the posted ones batch by batch |
| `Counting.EndsEarlyIff` | debug/rdma_session.cpp:179-185 | some schedule lets bulk answer 0 with its last slice unwritten exactly if completions were outstanding before and do not force it past the number posted |
| `BulkTransfer.Session.QuerySend` | debug/rdma_socket.c:615-636 | the result, the queue and the rest of the schedule are those of the query run; the operations executed meanwhile are the oldest, in order |
| `BulkTransfer.Session.Rdma` | debug/rdma_session.cpp:131-145 | posts the slice to the address of the current entry with its key, or to the address and key of the handshake where both are 0, and steps the index even if the post fails |
| `BulkTransfer.Session.Slice` | debug/rdma_session.cpp:147-169 | the registered pairs name exactly the slices of the region, or a registration failed |
| `BulkTransfer.Session.PostAll` | debug/rdma_session.cpp:172-176 | the slices are posted in order to consecutive entries up to the first rejected one |
| `BulkTransfer.Session.Collect` | debug/rdma_session.cpp:179-185 | of the answers of its queries in order: 0 exactly if all are positive and come to num, -1 exactly if the last is -1, the same as a poll failing or bringing a failed completion before num; the queue is what the counting loop leaves, and the operations executed are the oldest, in order |
| `BulkTransfer.Session.BulkSend` | debug/rdma_session.cpp:147-195 | 0 if and only if no registration, post or deregistration of the call fails, and none of its polls fails or brings a failed completion; for every failing one what was posted, executed and is outstanding, and the index; from a quiet session success leaves nothing outstanding and every slice at the address of its entry |
| `BulkTransfer.Session.Latency` | debug/rdma_session.cpp:197-223 | -1 if and only if the size is too large, the post is rejected, or the poll that ends the query fails or brings a failed completion; exactly the message is posted; from a quiet session success restores zero outstanding |
| `BulkTransfer.Session.Calls` | debug/rdma_session.cpp:147-223 | any sequence of calls from a quiet session: all come to an end, all succeed as long as nothing fails, and after the last success the session is quiet and the index has advanced by all slices |
| `BulkTransfer.LatencyEndsIff` | debug/rdma_session.cpp:197-213 | latency can come to an end without a failing poll exactly if it has a message to send or something was outstanding: never for size 0 on a quiet session |
| `Formats.ValueOfPadded` | rdma/Infiniband.cc:275 | a zero-padded number denotes the number printed |
| `Formats.PaddedLength` | debug/rdma_socket.c:183 | a padded number has exactly the field width when it has no more digits |
| `Formats.ScanPadded` | debug/rdma_socket.c:200 | scanning a printed number gives it back and leaves what follows |
| `Formats.DigitsForm` | debug/rdma_socket.c:200 | digits are scanned with or without 0x for base 16, up to what cannot belong to them |
| `Formats.SignedForm` | debug/rdma_socket.c:200 | white space and a sign may come before; behind a minus sign the variable holds the negated number |
| `Formats.UnsignedForm` | debug/rdma_socket.c:200 | without a sign the number is what its digits denote, behind white space |
| `Gid.PrintedWord` | debug/pingpong.c:85-86 | htonl of a loaded word is its bytes in memory order as a number, on either host |
| `Gid.StoredWord` | debug/pingpong.c:77 | storing ntohl of a word stores its bytes most significant first, on either host |
| `Gid.PrintedIsHex` | debug/pingpong.c:86 | %08x of a word is the hex of its four bytes in memory order |
| `Gid.HexByteAt` | debug/pingpong.c:86 | characters 2i and 2i + 1 of the wire form are byte i in hex |
| `Gid.GidToWireGid` | debug/pingpong.c:81-87 | the wire form is the 32 hex digits of the bytes in memory order and a terminator, whatever the host |
| `Gid.WireGidToGid` | debug/pingpong.c:68-79 | eight characters at a time are scanned and stored, a word keeping its old value where there is nothing to scan |
| `Gid.GidRoundTrip` | rdma/Infiniband.cc:302-320 | the wire form of any gid decodes to it, whichever hosts wrote and read it |
| `Messages.MessageFitsIff` | debug/rdma_socket.c:148 | the message is exactly 85 characters, and fits its buffer, if and only if the address has at most 16 digits |
| `Messages.MessageLayout` | debug/rdma_socket.c:183 | for short addresses, where each field and colon of the 85 characters is, and the base it is in |
| `Messages.WriteMessage` | debug/rdma_socket.c:182-184 | the buffer holds exactly the message, its terminator, and what was behind; where it is 86 characters, what goes on the wire |
| `Messages.ReadMessage` | debug/rdma_socket.c:357-358 | the scan and the gid decoding give the parsed data, or none where a directive fails |
| `Messages.HandshakeRoundTripIff` | debug/rdma_socket.c:182-201 | what is received is terminated and parses to every field sent, exactly for addresses of at most 16 digits |
| `Datagram.DatagramFits` | rdma/Infiniband.cc:271-275 | the datagram and terminator are 56 characters for all values |
| `Datagram.DatagramLayout` | rdma/Infiniband.cc:275 | where each field and colon of the datagram is |
| `Datagram.RecvMsg` | rdma/Infiniband.cc:226-262 | the packed structure holds the four stores one after the other, the one to lid running into qpn; the result tells a whole datagram from one to drop or try again and from an error |
| `Datagram.StoredLayout` | rdma/Infiniband.h:12-17 | qpn is read back from bytes 2 to 6, psn from 6 to 10, gid from 10 to 26, lid from the first half of its store |
| `Datagram.LidSurvivesIff` | rdma/Infiniband.h:12-17 | a 16-bit lid is found in the first half of the 4-byte store exactly on a little-endian host, or if it is 0 |
| `Datagram.DatagramRoundTripIff` | rdma/Infiniband.cc:226-300 | the structure holds what was formatted exactly if the receiving host is little-endian or lid is 0 |
| `SliceTable.WriteTable` | debug/rdma_session.cpp:60-64 | records of any addresses follow each other at stride 25, each over the end of the one before, and a terminator behind the last; short ones are whole |
| `SliceTable.RecordLayout` | debug/rdma_session.cpp:62 | a record is the 16-digit decimal address, a colon and the 8-digit hex key |
| `SliceTable.TableFitsIff` | debug/rdma_session.cpp:60-64 | a table of short records stays inside its buffer exactly if that has one character more than the 25 each the source reserves |
| `SliceTable.ReadTable` | debug/rdma_session.cpp:74-82 | len/25 entries are read, each from its 25 characters on |
| `SliceTable.RecordRoundTripIff` | debug/rdma_session.cpp:79-80 | a record in the table is read back as it was exactly when its address has at most 16 digits |
| `SliceTable.TableRoundTrip` | debug/rdma_session.cpp:60-82 | a table of any number of slices is read back in order, whatever follows it in the buffer |
| `Handshake.SourceIsFaithful` | debug/rdma_socket.c:182-201 | the messages on the wire parse to both sides' data |
| `Handshake.Context.Connect` | debug/rdma_socket.c:210-264 | 0 exactly if both transitions succeed, and then the queue pair is RTS with the peer's number and sequence number and its own; a failed transition leaves it where it was |
| `Handshake.ConnectSide` | debug/rdma_socket.c:210-264 | on the queue pair of a side that knows its peer, that is two steps of the run, or one that fails |
| `Handshake.StepInv` | debug/rdma_socket.c:345-378 | every step of either side, failing or not, keeps the invariant that a message to the client means a connected server |
| `Handshake.StepForward` | debug/rdma_socket.c:210-264 | no step takes a queue pair back or past a state |
| `Handshake.HandshakeSafe` | debug/rdma_socket.c:184-201 | in every interleaving, a client that left INIT has a server that is RTS, and two RTS queue pairs have each other's number and sequence numbers |
| `Handshake.HandshakeCompletes` | debug/rdma_socket.c:479-500 | if no call fails, a run that can go no further has both sides connected to each other |
| `HugePages.RealSizeIff` | debug/huge_page.c:4-11 | the rounded size is whole pages, and leaves a page beside the bytes asked for exactly while the sum does not wrap |
| `HugePages.HandedInv` | debug/huge_page.c:12-24 | handing out a region keeps every live header and writes the new one |
| `HugePages.WriteInv` | debug/huge_page.c:24 | a write inside what was asked for keeps every header |
| `HugePages.DroppedInv` | debug/huge_page.c:28-44 | a release keeps every other header and is the call the system's record asks for |
| `HugePages.Obtained` | debug/huge_page.c:7-25 | over any run, a live region is recorded as the last allocation that gave its base obtained it |
| `HugePages.EveryReleaseIsRight` | debug/huge_page.c:7-44 | over any run, a free releases by munmap of the mapped length where the last allocation that gave the base was answered by mmap, and by free where it was answered by malloc |
| `HugePages.HeadersStay` | debug/huge_page.c:12-24 | over any run, a live region has the header that the answer of its allocation calls for, and room for what was asked |
| `HugePages.AllocatedHeader` | debug/huge_page.c:12-22 | the header is the rounded size where mmap answered, and 0 where malloc did |
| `HugePages.Allocator.MallocHugePages` | debug/huge_page.c:7-25 | the pointer is one page behind the base that mmap answered, with the rounded size as header, or behind that of malloc, with header 0; the bytes asked for are inside the region exactly if the rounding does not wrap; NULL exactly when both calls fail |
| `HugePages.Allocator.FreeHugePages` | debug/huge_page.c:28-44 | NULL does nothing; otherwise the region is released by its header |
| `HugePages.Allocator.ReleaseRegion` | debug/huge_page.c:32-43 | the assertion on the header holds, and the release matches how the region was obtained |
| `TestStream.Fill` | debug/xx.cpp:27-36 | the buffer is filled with A to Z in groups of four |
| `TestStream.PatternIs` | debug/xx.cpp:30-36 | the pattern starts with four A, and each further group of four is the next letter, A after Z |
| `TestStream.Check` | debug/xx.cpp:133-151 | the check accepts exactly the pattern |
| `TestStream.Server` | debug/xx.cpp:114-151 | reads that fill the buffer are put together in order, and accepted exactly if they are the pattern |
| `TestClient.Sender.Query` | debug/xx.cpp:59 | the result and what stays outstanding are those of the query run; what is delivered is what the buffer held, read by the device in any two parts between post and completion |
| `TestClient.PostAnsweredIff` | debug/xx.cpp:59 | some schedule of unfailing polls answers the query behind a post exactly if the post was accepted |
| `TestClient.ClientEndsIff` | debug/xx.cpp:50-68 | the client comes to an end exactly if its first post is rejected, or every later post it gets to query for is accepted, unless a poll of that query fails |
| `TestClient.ComesWellIff` | debug/xx.cpp:44-63 | a client that ends returns 0 exactly if its first post is accepted and the poll that ends each of its queries neither fails nor brings a failed completion |
| `TestClient.Sender.Client` | debug/xx.cpp:27-68 | the buffer is never written while a send is outstanding; the messages are a beginning of the slices of the pattern, in order; 0 exactly if the first post and every query succeed, and then the last slice alone is missing, and nothing outstanding, exactly if its post was rejected |
| `EndToEnd.ReadsMakePattern` | debug/xx.cpp:114-151 | fed by the ring, what the server puts together is always a beginning of the pattern, and once all messages are read it is the pattern, fills the buffer and passes the check |
| `EndToEnd.RingCanDeliver` | debug/rdma_session.cpp:238-290 | any messages that fit its slots are delivered by some legal run of a ring of two slots |
| `EndToEnd.WholeTest` | debug/xx.cpp:20-151 | the client where nothing fails, any legal run of the ring that delivers its messages, and the server: it accepts, and has the pattern |

## Left out

- Device calls, device and port discovery, sockets, threads, timing, logging and teardown: they appear only as the
  environment's choices.
- The shared receive queue posts the chunks of the list that sends take from; the model keeps receive chunks apart from
  the transmit pool, so what happens to a chunk that is posted for receive and sent is not modelled.
- Chunk buffers are separate arrays, not ranges of one allocated block.
- The lengths in `send` and `get_buffers` are unbounded; the source counts chunks in 32 bits, which a buffer list of less
  than 2^32 bytes cannot exceed.
- Concurrent workers on one memory manager: the source has no locks there, and the model runs one handler.
- The number of table entries stands for `slices`, which the source computes from its own region and not from the
  peer's table.
- The prototype's `set_maxCQE` could make a batch larger than the ring; batches have at most recv_nums entries here.
- Packing.Send: too few free chunks are excluded, because the source then writes through an end iterator
  (`Packing.SendInsideIff`).
- Receive.Socket.Read: what a second call returns is not specified beyond `ReadBuffers` and `NextCallContinuesIff`,
  because the code does not keep how many bytes arrived in a chunk.
- Messages.ReadMessage: where a directive of the scan fails the source leaves fields unset; the model returns none.
- Datagram.RecvMsg: the same where a directive fails; retries and injected failures are left out.
- SliceTable.ReadTable: the terminator that `%25s` stores behind the 25 characters of `tmp` is not modelled.
- TestClient.Sender.Query: the device reads a message in two parts, at the post and before the completion, and not byte by
  byte in between.
- TestClient.Sender.Client: runs that never end are excluded, exactly as `ClientEndsIff` says.
- TestStream.Server: reads that leave the buffer short or run past its end are excluded: the source waits for ever, or
  overruns it; `EndToEnd.ReadsMakePattern` says the ring gives no such reads.
- Chunks.Cluster.Add: blocks for which the 32-bit offset wraps before it passes the end are excluded.
- Messages.WriteMessage: a message longer than its buffer, which the source writes past, is excluded.
- SliceTable.WriteTable: a table that does not fit its buffer, as in the source, is excluded (`SliceTable.TableFitsIff`).
- `cpyread.cpp`, `regread.cpp` and `migration.cpp` repeat the slicing and table code.
