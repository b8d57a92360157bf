# Mutated: the socket engine and the protocols on it

Mutated is a load generator: it opens many connections to a server, sends requests on an open-loop
schedule and measures how long each answer takes. This project models the engine it is built on and
the protocols that run on that engine, and proves what they keep over every run.

- `RingBuffer.dfy`: the circular buffer, as a class over an array. It refines a bounded queue.
- `RxFraming.dfy`, `TxStream.dfy`: what the two halves of a socket mean, on values. A reference parse
  of the whole incoming stream, and absolute positions in the outgoing one, against the resumable loop
  and the stored differences.
- `Sock.dfy`: the socket itself, two classes over rings that are changed in place, proved to be runs of
  the two models above.
- `Packets.dfy`, `Keys.dfy`: memcache packets and zero-padded keys.
- `Requests.dfy`: the writes of a request through the transmit ring, and when its bytes are right.
- `Matching.dfy`, `Generator.dfy`: a connection with a peer that answers in order, the lockstep of three
  queues, and the request ring with its three handlers.
- `Loader.dfy`, `LoaderRing.dfy`: the quiet/loud window protocol of the data loader, and the ring it needs.
- `Schedule.dfy`, `Client.dfy`: the schedule, and the experiment driver with its reference counts.
- `Coord.dfy`, `Accum.dfy`: splitting and merging of experiments, and sample percentiles.

## How the program is stated

- The kernel is a list of answers, one for each system call: any number of bytes, EAGAIN, or an error. A
  list that has run out answers EAGAIN. Exceptions are `Result` and `IoResult` values.
- A callback that runs is appended to a log, with its argument and the bytes it was given. The client
  code is then run on that log in order. A header callback's return value, the body length, is a
  function of the header bytes.
- An object that is built in two segments is copied as the program does it: the first part is right, and the
  rest is read from behind the object, an arbitrary function of the position. A response header that is read in
  two segments is put together as the program does it, too: the second part is written outside the header
  object, whose rest keeps the bytes it was constructed with.
- The fields of `Sock` are grouped by direction into `Receiver` and `Transmitter`.
- Generators live in a list that stands for the heap. Deleting one leaves `None`, so a use after the
  deletion would be a failed lookup, and every lookup is proved to succeed.
- Random gaps, connection choices and key ids are arbitrary inputs. A clock is an arbitrary list of readings
  that never goes back; equal readings are possible.

## Where the code does not do what it is for

Each of these has an exact condition, proved in both directions or with a concrete input.

- A full ring has `begin() == end()`, so a range-based loop over it visits nothing (`RingBuffers.RingBuffer.Walk`).
  With a full callback queue the receive loop parses nothing (`RxFraming.MaximalIffQueueHasRoom`) and
  the transmit loop lets all stored positions slip (`TxStream.WriteRefinesIffQueueHasRoom`).
- The receive loop can be wedged by a peer if and only if its operation queue is full, or a header or a body
  that is for a callback can be longer than the receive buffer (`RxFraming.NeverWedgesIffSized`).
- The program copies the second segment with `&t + n1`, `&pkt + n1` and `&hdr + n`
  (`client/socket_buf.hh:146`, `client/gen_synthetic.cc:68`, `client/gen_memcache.cc:209`), which steps by
  whole objects. An object built in place is right for sure if and only if it does not straddle the end of the
  transmit ring (`Packets.GarbledIsRightIff`); a get or a set is on the stream as encoded under exactly that
  condition (`Requests.GetIsEncodedIff`, `Requests.SetIsEncodedIff`), which the length of the stream before it
  decides (`Requests.GetInStreamIff`, `Requests.SetInStreamIff`). A response header to a get is copied inside the
  header object if and only if it does not straddle the end of the receive ring (`Packets.CopyStaysInsideIff`),
  which its place in the stream of all answers decides (`Matching.HeadersAreCutInPlace`). What it announces is
  right if and only if the bytes of the length field that are missing are zero (`Packets.PutTogetherIsRightIff`).
- An answer whose request was sent at the same clock reading at which it was generated makes `recv_response`
  throw. The handlers throw nothing and write nothing outside a header if and only if every answered request was
  sent later and no header of a get among the answers straddles (`Generators.Generator.Perform`).
- `hton` and `ntoh` compute `version` from `opaque`, so a header survives the round trip only if it
  already had that value (`Packets.HtonRoundTrip`). Constructed headers do, both fields being 0.
- The loader's guard on the key size lets a key one digit too long through (`Keys.GuardIsTooWeak`); the
  keys differ exactly if the largest id fits in the width (`Keys.KeysDistinctIffFit`).
- The loader's received count overflows if rounding the number of sets up to whole groups reaches 2^64, and the
  loader then waits for ever with everything answered (`Loader.FinalCountIffNoOverflow`,
  `Loader.OverflowExample`). With anything to load it also waits for ever if the batch is zero, and divides by zero
  if only the notify count is. It finishes in all other cases, and only in those (`Loader.MemcacheLoad.Run`).
- The loader's first window is written before anything can drain. It throws if and only if a key or value is empty
  or the sets of the window do not fit in the transmit ring together (`LoaderRings.WindowFitsIff`,
  `LoaderRings.FirstWindow`); after a first window that fits, no later set throws (`LoaderRings.NeverOutOfSpace`).
- The two percentile functions of the repository use different ranks. They are one rank apart at the most
  (`Coordinator.PercentilesAreClose`), agree under an exact condition on the fraction and the number of samples
  (`Coordinator.RanksAgreeIff`), and differ for the 99th percentile of two samples (`Coordinator.RanksDiffer`).
- The schedule is empty if and only if no warm-up, samples or cool-down are asked for
  (`Schedules.EmptyIffNothingAsked`); `timer_handler` then reads a deadline that does not exist.

## Model

| member | source | states |
|---|---|---|
| RingBuffers.SlotOwner | client/buffer.hh:179-188 | each array slot inside a prepared segment is one particular free slot, found by its offset; this settles the full/empty ambiguity of head and tail |
| RingBuffers.PreparedMissesLive | client/buffer.hh:166-189 | the two segments of a prepared write never overlap a live item |
| RingBuffers.FilledRotation | client/buffer.hh:157-189 | filling the prepared segments puts the data right behind the live items, in order, and changes nothing else, wherever the ring wraps |
| RingBuffers.SegmentsAreRotation | client/buffer.hh:270-303 | segments that hold the right slots in turn concatenate to the requested stretch of the queue |
| RingBuffers.DroppedContents | client/buffer.hh:322-328 | moving the head by `len` slots round the array removes exactly the `len` oldest items |
| RingBuffers.ClipIsNextFree | client/buffer.hh:196-220 | a short read that fills only part of the prepared space can be committed on its own: that part is again the next free slots |
| RingBuffers.RingBuffer.constructor | client/buffer.hh:137-137 | an empty queue of the given capacity |
| RingBuffers.RingBuffer.QueuePrep | client/buffer.hh:166-189 | fails exactly for length 0 or more than the free space, with the source's error; otherwise the segments are the next `len` free slots |
| RingBuffers.RingBuffer.QueueCommit | client/buffer.hh:196-220 | fails as preparing does; otherwise the queue grows by exactly what the next free slots hold |
| RingBuffers.RingBuffer.Fill | client/socket_buf.cc:312-322 | the copy into both segments leaves the queue alone and makes the free slots start with the data |
| RingBuffers.RingBuffer.Queue | client/buffer.hh:229-237 | takes a contiguous stretch that starts at the end of the queue, shortened to what fits |
| RingBuffers.RingBuffer.QueueEmplace | client/buffer.hh:245-251 | appends one item, or fails exactly when the ring is full |
| RingBuffers.RingBuffer.Last | client/buffer.hh:256-268 | the slot of the item queued last, on either side of the wrap; fails exactly on an empty ring |
| RingBuffers.RingBuffer.Peek | client/buffer.hh:280-303 | fails exactly for length 0 or more than is queued; otherwise the two segments concatenate to the requested prefix |
| RingBuffers.RingBuffer.Drop | client/buffer.hh:310-329 | removes exactly the oldest `len` items, or fails without any change when there are fewer |
| RingBuffers.RingBuffer.Clear | client/buffer.hh:334-334 | empties the queue |
| RingBuffers.RingBuffer.Dequeue | client/buffer.hh:344-352 | removes what it asks for, shortened to what is queued, and hands out the first contiguous part of it |
| RingBuffers.RingBuffer.DequeueOne | client/buffer.hh:358-362 | hands out the slot of the oldest item and removes it; on an empty ring the error is the one for length 0 |
| RingBuffers.IteratorSteps | client/buffer.hh:62-108 | with a free slot left, `++` goes from each live slot to the next, `--` undoes it, and only the position after the last item is the end |
| RingBuffers.RingBuffer.Walk | client/buffer.hh:368-388 | a range-based loop visits every live slot once in queue order, except that it visits none of a full ring |
| RxFraming.HeaderKeepsParse | client/socket_buf.cc:168-186 | one header attempt, complete, partial or partly dropped, changes nothing about what the reference parse owes, whatever bytes follow |
| RxFraming.BodyKeepsParse | client/socket_buf.cc:188-205 | the same for one body attempt, including the partial drop that shortens the body length |
| RxFraming.ServeKeepsParse | client/socket_buf.cc:167-208 | the same for a whole operation, whose body length comes from its header callback |
| RxFraming.DrainKeepsParse | client/socket_buf.cc:166-211 | a pass over the queue hands over to the reference: callbacks run plus callbacks still owed stay the same, for any operations and bytes to come |
| RxFraming.DrainWaits | client/socket_buf.cc:166-211 | after a pass the front operation wants more bytes than are buffered, so no callback is owed |
| RxFraming.NothingLost | client/socket_buf.cc:128-226 | over every run of reads queued and bytes received, callbacks run so far followed by those still owed are the one-shot parse of the whole stream |
| RxFraming.ParseOfMessages | client/socket_buf.cc:167-208 | the reference itself: for any reads and messages that fit them, the whole stream is parsed into each header and body as it was sent, with its own argument, empty ones and those nobody asked for left out, and the rest of the stream is left over |
| RxFraming.FramingIsFragmentationIndependent | client/socket_buf.cc:128-226 | right after every successful kernel read, with room in the operation queue, the callbacks run are exactly the one-shot parse of all bytes so far, for any split of the stream and any interleaving with further reads |
| RxFraming.MaximalIffQueueHasRoom | client/socket_buf.cc:166-211 | a pass leaves nothing owed, for all states and data, if and only if the operation queue is not full |
| RxFraming.DrainMakesRoom | client/socket_buf.cc:137-140 | after a pass with an operation left there is free space to read into, if what goes to a callback in one piece fits in the buffer |
| RxFraming.RxNeverWedges | client/socket_buf.cc:128-213 | in every run with a peer that sends only what was asked for, a queued operation implies free space, and an idle socket has an empty buffer |
| RxFraming.NeverWedgesIffSized | client/socket_buf.cc:128-213 | for any queue of reads and whatever a peer sends in whatever pieces, there is always room for the next read, if and only if the queue is not full and nothing that is for a callback can be longer than the buffer |
| TxStream.RetireRefinesTargets | client/socket_buf.cc:269-283 | the loop over the differences runs exactly the points at or before the new position, and the rest keep their absolute positions |
| TxStream.AppendPoint | client/socket_buf.cc:331-342 | a point stored as its distance from the last one stands for the end of the stream as written |
| TxStream.StreamIsFaithful | client/socket_buf.cc:231-322 | in every run, bytes taken by the kernel followed by the buffered bytes are the concatenation of all committed writes |
| TxStream.DeltasRefinePositions | client/socket_buf.cc:231-342 | in every run, the callbacks that ran are the oldest points in order, each run once in the first write that reached its position, and the queue holds exactly the others at their positions |
| TxStream.FiredIffReached | client/socket_buf.cc:267-284 | right after every write, a point has run if and only if the total sent has reached it |
| TxStream.WriteRefinesIffQueueHasRoom | client/socket_buf.cc:269-283 | a write preserves the positions of the points it does not run if and only if the callback queue was not full |
| TxStream.AddPoint | client/socket_buf.cc:331-342 | keeps the invariant: the differences sum to `tx_out_`, which is at most the bytes buffered while the queue is not full |
| TxStream.AfterWrite | client/socket_buf.cc:267-284 | keeps the same invariant for a partial write of any size |
| Sockets.ReceiveIsRun | client/socket_buf.cc:128-213 | whatever the kernel answers, a call of `rx` continues the socket's run by its successful reads |
| Sockets.ReceiveRunsWhatIsOwed | client/socket_buf.cc:128-213 | a call of `rx` that read anything has run exactly the one-shot parse of all bytes since the socket was opened |
| Sockets.ReceiveEnds | client/socket_buf.cc:131-164 | how a call of `rx` ends, after its `k` successful reads: idle if and only if no operation is left; with the ring's error if and only if there is no room; otherwise blocked, a system error or too many bytes if and only if answer `k` of the kernel is missing or EAGAIN, an error or the end of the file, or longer than the room; and which answers are left |
| Sockets.ReceiveNeverWedges | client/socket_buf.cc:128-213 | after any run with a peer that sends only what was asked for, no call of `rx` throws the ring's errors, whatever the kernel answers |
| Sockets.TraceIsRun | client/socket_buf.cc:177-183 | the segments in which a call of `rx` hands out headers are those of the traced run |
| Sockets.TransmitTerminates | client/socket_buf.cc:231-285 | with progress in each write, `tx` makes at most one system call per buffered byte and one more, and returns idle only with nothing buffered |
| Sockets.TransmitEnds | client/socket_buf.cc:234-265 | how a call of `tx` ends, after its `k` successful writes: idle if and only if nothing is buffered; otherwise blocked, a system error or too many bytes if and only if answer `k` of the kernel is missing or EAGAIN, an error, or more than is buffered |
| Sockets.TransmitIsRun | client/socket_buf.cc:231-285 | whatever the kernel answers, a call of `tx` continues the socket's run by its successful writes |
| Sockets.Receiver.ServeHeaderAt | client/socket_buf.cc:168-186 | in place, on the rings: the operation's slot, the receive buffer, the callback log and the cut of the header become what the value model says, and no other operation changes |
| Sockets.Receiver.ServeBodyAt | client/socket_buf.cc:188-205 | the same for the body half |
| Sockets.Receiver.ServeQueue | client/socket_buf.cc:166-211 | the iterator loop with its break and the drop after it refine one pass of the value model, and do nothing on a full queue |
| Sockets.Receiver.Commit | client/socket_buf.cc:139-164 | bytes read into two segments are appended to the buffer in order |
| Sockets.Receiver.Receive | client/socket_buf.cc:128-213 | the loop refines the call on values for every kernel, with the cut of every header, and the ready flag is cleared exactly on EAGAIN; how that call ends is `ReceiveEnds` |
| Sockets.Receiver.Read | client/socket_buf.cc:219-226 | fails exactly on a full queue; reads from the kernel only if the socket is known to be readable |
| Sockets.Transmitter.WritePrepare | client/socket_buf.cc:295-298 | fails exactly for length 0 or too little space; otherwise hands out the next free slots of the buffer |
| Sockets.Transmitter.WriteCommit | client/socket_buf.cc:305-305 | appends to the stream whatever the prepared bytes hold |
| Sockets.Transmitter.Write | client/socket_buf.cc:312-322 | appends exactly the data to the stream, wherever the buffer wraps, or fails without any change |
| Sockets.Transmitter.WriteEmplace | client/socket_buf.hh:136-150 | fails as `write` does; otherwise appends the object up to the end of the ring and arbitrary bytes for the part behind it |
| Sockets.Transmitter.WriteCbPoint | client/socket_buf.cc:331-342 | adds a point at the end of the stream as written, or fails without any change on a full queue |
| Sockets.Transmitter.RunCallbacks | client/socket_buf.cc:269-283 | the iterator loop over the ring runs, shortens and counts what the value model says, in order, and nothing on a full queue |
| Sockets.Transmitter.Wrote | client/socket_buf.cc:267-284 | one accepted write moves the front of the buffer to the kernel and retires the callbacks it reached |
| Sockets.Transmitter.Transmit | client/socket_buf.cc:231-285 | the loop refines the call on values for every kernel, and the ready flag is cleared exactly on EAGAIN |
| Sockets.Transmitter.TryTx | client/socket_buf.cc:349-354 | transmits only if the socket is known to be writable, and changes nothing otherwise |
| Sockets.Sock.OnReadable | client/socket_buf.cc:381-384 | a readable event runs `rx` and leaves the transmitting half alone; the socket stays readable unless the kernel would block |
| Sockets.Sock.OnWritable | client/socket_buf.cc:386-393 | a writable event first settles the connection, and a failed connection changes nothing |
| Sockets.Sock.RunIo | client/socket_buf.cc:379-394 | both events in order; an exception while receiving leaves the transmitting half, the connection flag and the rest of the call untouched; both ready flags are exact afterwards |
| Packets.LeRoundTrip | client/memcache.hh:77-126 | an integer of `k` bytes is read back from memory as its value modulo 256^k |
| Packets.SwapIsNetworkOrder | client/memcache.hh:109-125 | swapping on a little-endian host puts the bytes in network order, and twice restores the number |
| Packets.ConstructedInNetworkOrder | client/memcache.hh:95-107 | `hton` on the constructor's field values leaves every field in network order in memory, with a body length that wraps at 32 bits |
| Packets.PackedIsHeader | client/memcache.hh:77-126 | a struct in that state, packed, is byte for byte the header of the binary protocol |
| Packets.HeaderFields | client/gen_memcache.cc:200-212 | magic, command, extras length, key length and body length read back from those bytes are the ones written, modulo their widths |
| Packets.LengthsAreBytes | client/gen_memcache.cc:200-212 | the body length that a header announces is the number in its bytes 8 to 11, most significant first, and the key length that in 2 and 3 |
| Packets.HtonRoundTrip | client/memcache.hh:109-125 | to network order and back restores all fields but `version`, which survives if and only if it was the swapped `opaque` |
| Packets.MemcHeader.constructor | client/memcache.hh:95-107 | every constructed header is in network order, for all lengths of its parameter widths |
| Packets.MemcHeader.Hton | client/memcache.hh:109-116 | converts every field in place; the properties of that conversion are `SwapIsNetworkOrder` and `HtonRoundTrip` |
| Packets.MemcHeader.Ntoh | client/memcache.hh:118-125 | the same conversion in the other direction |
| Packets.GarbledIsRightIff | client/socket_buf.hh:143-148 | an object whose second part is copied from the wrong place is right for every content of that place if and only if there is no second part |
| Packets.CopyStaysInsideIff | client/gen_memcache.cc:207-210 | the copy of the second segment stays inside the header object if and only if there is no second segment |
| Packets.PutTogetherIsRightIff | client/gen_memcache.cc:203-211 | for every header and every cut: the announced body length is right if and only if the bytes of the length field behind the cut are zero, because the rest of the object is a default header |
| Packets.PutTogetherIsAlwaysRightIff | client/gen_memcache.cc:203-211 | it is right for every header if and only if the first segment holds 12 bytes or more |
| Requests.WritesSucceedIff | client/load_memcache.cc:242-246 | the writes of a request all succeed if and only if none is empty and all of them fit together; then exactly their bytes are appended |
| Requests.WriteSet | client/load_memcache.cc:240-246 | on the transmit ring: the header struct, the extras, key and value are appended up to the first write that throws, and nothing else changes |
| Requests.WriteGet | client/gen_memcache.cc:109-112 | the same for the header and key of a get |
| Requests.SetIsEncodedIff | client/load_memcache.cc:240-246 | those bytes are the encoded set for sure if and only if neither the header nor the extras straddle the end of the ring |
| Requests.GetIsEncodedIff | client/gen_memcache.cc:109-112 | those bytes are the encoded get for sure if and only if the header does not straddle the end of the ring |
| Requests.SetInStreamIff | client/load_memcache.cc:240-246 | at every point of a socket's life, the same condition on the number of bytes written before, modulo the capacity |
| Requests.GetInStreamIff | client/gen_memcache.cc:109-112 | the same for a get |
| Packets.StreamRoundTrip | client/load_memcache.cc:234-246 | any sequence of requests with keys under 2^16 and bodies under 2^32 bytes is parsed back from its concatenated bytes into the same list |
| Packets.RoundTripIffFits | client/memcache.hh:95-107 | those bounds are exact: a request survives if and only if its lengths fit |
| Packets.SetIsBytes | client/load_memcache.cc:234-246 | a set that fits, literally: every byte of its header, the extras, key and value, with the quiet and the loud command |
| Packets.GetIsBytes | client/gen_memcache.cc:97-112 | a get that fits, literally |
| Keys.KeyIsReadable | client/gen_memcache.cc:49-64 | an id under 10^width is read back from its zero-padded key |
| Keys.KeyIsDigits | client/gen_memcache.cc:49-64 | and such a key is nothing but digits, exactly `width` of them |
| Keys.KeysDistinctIffFit | client/load_memcache.cc:168-175 | the keys of ids 1 to N are pairwise different if and only if N < 10^width |
| Keys.GuardIsTooWeak | client/load_memcache.cc:116-121 | the guard accepts ten keys of width 1, of which two are the same |
| Keys.SlotsAreDisjoint | client/gen_memcache.cc:59-64 | the table slots of two records, with their terminators, do not overlap |
| Keys.BuildTable | client/gen_memcache.cc:59-64 | after the loop each slot holds the terminated key of its own id, and later keys have not overwritten earlier ones |
| Keys.ChooseKey | client/gen_memcache.cc:81-85 | stays inside the table; with keys that fit, the number read there is `id % records + 1`, the record that the id falls on |
| Keys.ChosenKeysAreStoredIff | client/load_memcache.cc:222-226 | every key the generator chooses for a 64-bit id was stored by a loader started at id 1 if and only if it stored at least as many keys as there are records |
| Loader.LoudTest | client/load_memcache.cc:203-203 | the test with `%` marks the last request of each group, and the last of all |
| Loader.LoudAnswered | client/load_memcache.cc:276-278 | with all loud requests answered only the current group is unacknowledged; after the last one nothing is, and the count exceeds the load by less than one group |
| Loader.LoudTotal | client/load_memcache.cc:202-207 | the number of loud requests is the load divided by the group size, rounded up |
| Loader.Acknowledged | client/load_memcache.cc:276-278 | acknowledged sets are sets that were sent, until the very last acknowledgement; before that the count stays under the load |
| Loader.FinalCountIffNoOverflow | client/load_memcache.cc:209-211 | the 64-bit count reaches the load at the end if and only if the rounded-up load does not overflow |
| Loader.OverflowExample | client/load_memcache.cc:209-211 | 2^64 - 1 sets in groups of two: the count ends at 0 and the exit test fails |
| Loader.IdsAreDistinct | client/load_memcache.cc:202-207 | no key id is sent twice, across the wrap of the counter |
| Loader.RequestsAre | client/load_memcache.cc:202-207 | request `i` carries the first id plus `i`, round the end of the counter, and is quiet if and only if it closes neither a group nor the load |
| Loader.MemcacheLoad.constructor | client/load_memcache.cc:145-163 | for all parameters, a loader that satisfies the invariant, with the group size limited to the window |
| Loader.MemcacheLoad.RecvResponse | client/load_memcache.cc:276-279 | one loud reply keeps the counters exact, including the wrap of `onwire_` at the very end |
| Loader.MemcacheLoad.SendRequest | client/load_memcache.cc:234-256 | writes one request; the invariant holds with replies arriving before `sent_++` |
| Loader.MemcacheLoad.RoomForOne | client/load_memcache.cc:202-202 | the window test on the wrapped counter is right: one more set still fits in the batch |
| Loader.MemcacheLoad.SendNext | client/load_memcache.cc:203-206 | the requests on the wire stay exactly the intended list, each id once in order, loud where due, and the window is respected |
| Loader.MemcacheLoad.NotStuck | client/load_memcache.cc:209-214 | deadlock freedom: when `run` is about to wait and not everything is answered, a loud request is unanswered; the exit test holds if and only if every loud reply has arrived and the loader can finish at all |
| Loader.MemcacheLoad.Run | client/load_memcache.cc:196-220 | stops only with everything sent once and all loud replies in; if every wait brings a reply it does stop if and only if there is a window or nothing to load, and the count does not overflow; it divides by zero exactly if the group size is zero and there is something to send |
| LoaderRings.WindowFitsIff | client/load_memcache.cc:202-207 | the writes of a window of sets all succeed if and only if keys and values are not empty and all sets fit in the free space together |
| LoaderRings.FirstWindow | client/load_memcache.cc:202-207 | before any reply the window holds the smaller of the load and the batch |
| LoaderRings.NeverOutOfSpace | client/load_memcache.cc:202-246 | with a ring that holds the first window, no later set throws, because acknowledged sets have left the ring |
| LoaderRings.LoadStoresKeys | client/load_memcache.cc:222-226 | a loader started at id 1 that has sent everything has sent exactly the keys of `ChosenKeysAreStoredIff`, in order |
| Schedules.Schedule.SetupDeadlines | client/client.cc:146-182 | if the gaps suffice the deadlines follow them, measure is the configured count, and warm-up and cool-down are the shortest phases of their durations; if it does not finish, no such schedule exists |
| Schedules.ScheduleIsOrdered | client/client.cc:155-179 | for non-negative gaps the deadlines are non-negative and never decrease |
| Schedules.ScheduleIsUnique | client/client.cc:146-182 | the gaps and the configuration determine the schedule and its three phases |
| Schedules.PhasesLast | client/client.cc:155-181 | from one deadline to the next it takes the gap, rounded up or down; the warm-up ends with the first deadline that reaches it, the samples asked for follow, and the cool-down ends with the first that reaches it |
| Schedules.EmptyIffNothingAsked | client/client.cc:155-181 | the schedule is empty if and only if warm-up, samples and cool-down are all zero |
| Clients.SamplesOfMultiset | client/client.cc:301-313 | which samples are recorded does not depend on the order of the replies |
| Clients.SamplesOfIssued | client/client.cc:279-287 | of the first `n` requests the measured ones are exactly those with indices in [pre, pre + measure) |
| Clients.AllAnswered | client/client.cc:299-323 | once all requests are answered, in any order, exactly the measured indices have been recorded, each once |
| Clients.PendingChanges | client/generator.hh:62-69 | replacing a generator changes the outstanding requests by its own and nothing else |
| Clients.RoundRobinSpreads | client/client.cc:224-229 | any `k` requests in a row, from any start, give each of the `n` connections `k / n` of them or one more |
| Clients.NextInTurn | client/client.cc:224-229 | the counter and its remainder move from each connection to the next one, and from the last to the first |
| Clients.MissedIsCount | client/client.cc:249-253 | the late sends are counted once each: the number of requests in the range whose deadline is further back than the threshold |
| Clients.Client.constructor | client/client.cc:207-216 | the pool starts with one reference each and the invariant holds |
| Clients.Client.Get | client/generator.hh:49-50 | one more reference for that generator alone |
| Clients.Client.Put | client/generator.hh:52-60 | one reference less, and the generator is gone exactly if it was the last |
| Clients.Client.RecordSample | client/client.cc:301-323 | inside a callback: the answered request leaves its connection, counts and samples follow, and the generator stays alive because the active call holds a reference |
| Clients.Client.Replies | client/generator.hh:80-86 | of the `n` answers that have arrived, the oldest `n` requests of the connection, or all if there are fewer, are recorded in order and leave the list of outstanding ones; none is dropped |
| Clients.Client.Leave | client/generator.hh:62-69 | a generator outlives the call if and only if it is pooled, has requests to answer, or another call is active on it |
| Clients.Client.Frame | client/generator.hh:81-86 | any number of replies inside a call are recorded, oldest requests first, as `Replies` says; they keep all counts exact, touch only that generator, and never free a pooled one |
| Clients.Client.GetConnection | client/client.cc:218-235 | the request goes to the end of one live generator's list, with a reference for it, and all others are unchanged; a connection is opened in `PER_REQUEST` mode and only there; round robin takes the one whose turn it is, and the random mode the one drawn |
| Clients.Client.SendRequest | client/client.cc:279-296 | hands over the next request of the schedule with the right measure flag, to the connection whose turn it is; the answers that arrive meanwhile are recorded; the invariant holds with `rcvd <= sent + 1` inside, and no generator that was alive is lost |
| Clients.Client.TimerHandler | client/client.cc:237-262 | sends everything due, adds exactly the number of late sends after the first to the count, and arms the timer for the next deadline |
| Clients.Client.CaughtUpIsExact | client/client.cc:246-260 | the number sent is the number of deadlines that have passed, and the armed delay is positive and ends at the next deadline |
| Clients.Client.Exhausted | client/client.cc:317-322 | the process exits only when the whole schedule has been sent and answered |
| Clients.Client.SentIsReceivedPlusOutstanding | client/client.cc:256-260 | requests begun are received plus outstanding, summed over the connections |
| Clients.Client.ExactlyMeasured | client/client.cc:305-322 | on exit nothing is outstanding, exactly the measured indices were recorded, and measurements were ended once (if any were asked for) |
| Clients.Client.ExitsWhenAnswered | client/client.cc:317-322 | once the whole schedule has been sent and no request is outstanding on any connection, the process has exited |
| Clients.Client.AliveOnlyIfNeeded | client/client.cc:218-235 | between handlers every generator still alive is pooled or has a request to answer |
| Clients.Client.RunIo | client/generator.hh:80-86 | the answers that are there are recorded, as `Replies` says, and the rest stays outstanding; a readable connection may free itself and nothing else, and never if it is pooled |
| Clients.Client.Handle | client/client.cc:117-128 | one event: the timer catches up with its time, a connection records its answers and sends nothing, and every later event of the batch stays possible |
| Clients.RestPossible | client/client.cc:117-128 | no later event of one `epoll_wait` can be for a generator that an earlier one freed |
| Clients.Client.RunBatch | client/client.cc:117-128 | every batch of timer and connection events keeps the invariant, in any order and with any number of replies; all of its events are handled, in order, unless the process exits |
| Clients.Client.Run | client/client.cc:94-134 | so does the main loop over any sequence of batches |
| Coordinator.SharesSplit | scripts/coord.go:34-58 | shares sum to the total, differ by at most one, and the larger ones come first |
| Coordinator.SplitConserves | scripts/coord.go:34-58 | that holds for samples, rate and connections, and every share is equal to the whole in all other settings |
| Coordinator.DivCfg | scripts/coord.go:34-58 | the loop yields the split that those lemmas are about |
| Coordinator.MergeIsOfMultiset | scripts/coord.go:171-174 | the merged result does not depend on the order of arrival |
| Coordinator.MergeIsEverything | scripts/coord.go:90-94 | a merge holds the samples of all parts, each as often as they have it, and the sums of their two rates |
| Coordinator.MergeOfAnswers | scripts/coord.go:90-94 | merging one full answer for each share gives the shares' sums of rate and sample count |
| Coordinator.Collect | scripts/coord.go:158-177 | accumulating parts as they arrive loses and duplicates nothing |
| Coordinator.Measure | scripts/coord.go:158-177 | any arrival order gives the requested rate, the requested number of samples, every sample of every part, and the sum of the measured rates |
| Coordinator.DoExperiment | scripts/coord.go:186-197 | row `i` offers the rate of step `i` and holds every sample and the measured rates of that step, of the requested total size |
| Coordinator.StepRatesRise | scripts/coord.go:192-193 | the product does not wrap for 32-bit inputs, the rates never fall, and the last step offers the full rate |
| Coordinator.Result.Accum | scripts/coord.go:90-94 | adds rates and appends samples |
| Coordinator.Result.Percentile | scripts/coord.go:81-88 | the smallest sample with enough samples at or below it for its rank; the minimum for 0 and the maximum for 1; the samples are only reordered |
| Coordinator.PercentilesAreClose | scripts/coord.go:81-88 | compared with the client's nearest rank the coordinator's is the same or one lower, and its figure is never higher |
| Coordinator.RanksAgreeIff | scripts/coord.go:86-87 | the two ranks are the same if and only if what truncation cuts off is at most one minus the fraction |
| Coordinator.RanksDiffer | scripts/coord.go:86-87 | of two samples the coordinator reports the lower as the 99th percentile and the client the higher |
| Accumulators.SortedSorts | client/accum.cc:58-61 | sorting yields an ordered permutation |
| Accumulators.CountIsOfMultiset | client/accum.cc:58-61 | how many samples are at most a value does not depend on their order |
| Accumulators.RankIsNearest | client/accum.cc:56-63 | the sample at the computed index is the smallest with at least the asked fraction of all samples at or below it |
| Accumulators.NearestRankIsMonotone | client/accum.cc:56-63 | such a sample is unique, and grows with the fraction |
| Accumulators.NearestRankIsBounded | client/accum.cc:56-81 | it lies between minimum and maximum, and the fraction 1 gives the maximum |
| Accumulators.Accum.AddSample | client/accum.cc:18-22 | appends one sample and keeps the flag honest: set only on sorted samples |
| Accumulators.Accum.Percentile | client/accum.cc:56-63 | the nearest-rank sample of everything added so far; the samples are only reordered |
| Accumulators.Accum.Min | client/accum.cc:65-72 | the least sample; the samples are only reordered |
| Accumulators.Accum.Max | client/accum.cc:74-81 | the greatest sample; the samples are only reordered |
| Accumulators.Accum.Clear | client/accum.cc:12-16 | forgets all samples and the flag |
| Matching.ParseOneAnswer | client/gen_memcache.cc:134-136 | one read meets its answer: its header goes to the callback, the body it announces is skipped, and parsing continues right behind it |
| Matching.AnnouncedIsField | client/gen_memcache.cc:200-218 | what the header callbacks return, for every header: for a get the number in bytes 8 to 11, for a set or a synthetic request nothing; a memcache header has 24 bytes and a synthetic response 8 |
| Matching.ParseOfAnswers | client/gen_memcache.cc:161-219 | any prefix of the answer stream is parsed into the headers of the first exchanges in order, each with its own slot, and leaves nothing over |
| Matching.StepKeepsLinked | client/gen_memcache.cc:97-139 | sending, writing and receiving keep the two socket queues in agreement with the list of exchanges |
| Matching.ReachedIsLinked | client/gen_synthetic.cc:47-89 | so every reachable connection is linked |
| Matching.AnsweredInOrder | client/gen_memcache.cc:174-179 | answers are handed out in request order, each with its own slot and header, and only for requests the peer had received |
| Matching.ServedAreStamped | client/gen_memcache.cc:144-156 | every request that the peer received in full has had its transmit callback |
| Matching.StampedInOrder | client/gen_memcache.cc:144-156 | transmit callbacks run in request order, each with its own slot |
| Matching.AnsweredAreStamped | client/gen_memcache.cc:182-187 | every answered request has already been stamped as sent |
| Matching.DrainKeepsOrder | client/socket_buf.cc:166-211 | a pass moves arguments from the unparsed reads to the callbacks in order, none lost or swapped |
| Matching.ReadsMatchRequests | client/gen_synthetic.cc:130-135 | lockstep: in every linked state the live slots of the request ring are, in order, the arguments of the reads whose header is not parsed |
| Matching.IdleIsEmpty | client/socket_buf.cc:128-135 | with no read queued no byte is left in the receive buffer |
| Matching.ConnectionNeverWedges | client/socket_buf.cc:128-213 | on every reachable connection a queued read implies free space, for any buffer that holds one header and bodies of any length |
| Matching.HeadersAreCutInPlace | client/socket_buf.cc:177-183 | on every linked connection the header of each answer is cut by the end of the receive ring where the length of all earlier answers, modulo the capacity, says |
| Generators.Generator.constructor | client/gen_memcache.cc:34-41 | an empty ring is in step with an idle connection |
| Generators.Generator.Begin | client/gen_memcache.cc:126-129 | the request goes to the slot its callbacks will name, with the clock reading and the measure flag, or fails exactly on a full ring |
| Generators.Generator.SentRequest | client/gen_memcache.cc:144-156 | stamps the request that was sent with the clock reading and leaves all others alone |
| Generators.WholeIsInside | client/gen_memcache.cc:200-212 | a header counts as whole exactly if nobody reads it or no copy goes outside the header object |
| Generators.Generator.Record | client/gen_memcache.cc:180-218 | each timing exception is thrown if and only if its times are in the wrong order or equal; a header is written outside of if and only if the times are right and it is in two segments; otherwise exactly one sample with the times, flag and size is recorded |
| Generators.SampleLaws | client/gen_synthetic.cc:137-157 | what a sample says: generated, then `queue` later sent, and `service` after the start answered; the bytes of the whole response; and for a synthetic request the wait is what the service took beyond the work, never negative, and 0 for memcache |
| Generators.SamplesInOrder | client/gen_memcache.cc:180-218 | sample `i` of a generator in step is that of request `i`, whose three time stamps follow each other |
| Generators.Generator.RecvResponse | client/gen_memcache.cc:161-219 | says for every header which exception is thrown, when the program goes outside the header object, and when neither happens; then the number in bytes 8 to 11 is returned for a get, and 0 for any other request |
| Generators.Generator.Perform | client/gen_synthetic.cc:47-168 | whatever a connection does next: all handlers run well and the ring stays in step if and only if every request answered was sent later than it was generated and no header of a get among the answers straddles the end of the receive ring; the former always holds on a clock without equal readings |
| Generators.CallbacksMatch | client/gen_memcache.cc:97-178 | the callbacks of a linked connection name exactly the slots that the handlers check |

## Left out

- System calls, `Sock::connect`, epoll registration and timerfd: the kernel is the list of answers described above.
- `Sock::~Sock` and callbacks with an error status: teardown order only.
- `client/socket_vec.cc` and `client/socket_vec.hh`: an older socket that is not compiled.
- Callbacks that call back into the same socket from inside `rx` or `tx`: the generators' own callbacks never do, and the log they are recorded in keeps their order.
- Packets.StreamRoundTrip: the value bytes of a generator's set are whatever the buffer held, so the list covers the loader's sets and all gets; for the generator's set, `Transmitter.WriteCommit` says which bytes those are.
- Matching.StepKeepsLinked: a request is sent only with room for one more entry left over in both callback queues; what a full queue does is stated by `MaximalIffQueueHasRoom` and `WriteRefinesIffQueueHasRoom`.
- Matching.ReachedIsLinked: the peer answers in order, only after a whole request, and sends no unsolicited answers or bodies on set errors.
- Matching.ConnectionNeverWedges: sets succeed, so only the answer to a get has a body.
- Loader.MemcacheLoad.Run: replies reach the loader one loud reply at a time, without the socket's buffers; errors to quiet sets are left out.
- Generators.Generator.Perform: what the program does after it has written outside a header object is not modelled; request ids, key choice and byte totals are not tied to the ring; the bytes of a request are arbitrary but not empty.
- Clients.Client.constructor: a schedule with at least one request; `EmptyIffNothingAsked` says which configurations have one.
- Clients.Client.GetConnection: the round-robin index does not overflow, and no connection fails to open.
- Clients.Client.Run: answers are complete replies for the oldest requests of a connection, which is what the lockstep results give; an event that epoll cannot report is passed over.
- Coordinator.Measure: each part is what a worker returns for its share, with exactly the requested samples; dialling and text parsing are not modelled.
- Accumulators.Accum.Percentile: ranks are exact reals, so rounding of doubles is not modelled; the same holds for `Result.Percentile`.
- `busy_timer` and the `send_only` mode, which never empties the request ring.
- Mean and standard deviation, result timing, byte totals, duration conversions, option parsing, printing and summaries.
- Random distributions: gaps, choices and service times are arbitrary values.
- Size arithmetic of the ring buffer is unbounded: its lengths never exceed the capacity, so `size_t` does not wrap.
