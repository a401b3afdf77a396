# Proofs about the vendored libevent

The repository vendors libevent 2.0.22. This project models the parts of it in which behaviour is hard to get right and
proves what they are for. Each module models one component; classes carry the fields that the C structures have, and
methods do to them what the C functions do, branch by branch. Ghost fields and specification functions give each state its
meaning.

## What is modelled

**Byte queues** (`buffer.c`). A queue is a linked list of chunks, each with a window of data in its memory, and a pointer to
the pointer to the last chunk with data. Modules `EvBuffers`, `EvBufferMoves` and `EvBufferPullup` prove every operation
against the flat bytes, `Contents()`, and prove that each keeps the links, `last`, `last_with_datap`, `total_len` and the
separation of storage right. `EvBufferRuns` puts them together: a run of any operations on two queues is a run on two flat
byte sequences. `EvBufferSearch` and `EvBufferLines` prove chunked searching and the four styles of line ends against the
flat bytes. `EvBufferReading` does the same for reading from a descriptor into free space, where empty chunks may wait
behind the data.

Appending (`evbuffer_add`) writes into the last chunk without moving `last_with_datap`, so the invariant written down in
`evbuffer-internal.h` does not suffice for it. `EvBuffer.Add` and `EvBufferMoves.RemoveBuffer` are stated for every valid
queue, and say exactly when the invariant holds afterwards and when an assertion fails; `Loose()` is what is left of it
otherwise, links, bytes and lengths, and `EvBuffer.Add` needs no more. The invariant always holds if no chunk is empty
unless it is alone, which is `Settled()`; appending, prepending, draining and moving keep that, and reading from a
descriptor does not. Only the runs of `EvBufferRuns` ask for it.

**Event base** (`event.c`, `minheap-internal.h`). `EventTimes` has times of seconds and microseconds, with the index of a
common timeout in the upper bits of the microseconds; `MinHeaps` the binary heap, an array of events each of which knows
its slot; `EventQueues` says, on values, what flags, heap, lists and timers have to do with each other; `EventLoop` has the
base itself, with the queues of active and inserted events, the timer heap, the sorted lists of events that share a timeout
and hang on one internal timer each, and the event map. Failures that nobody is told of are in the state: `lost` has the
events that wait and are not in the heap, `unarmed` the lists without an armed timer, `stale` the events that a failed
deletion left on their descriptor's list. All invariants are exact about them.

The slot that an event knows shares its storage with the links of a list (`event_struct.h`), so an event that leaves a list
and is lost to the heap knows a slot that it never had: 0 if it was the last of its list, and otherwise whatever the address
of the next event spells (the parameter `spells`). Erasing it takes the event in that slot off the heap. What a call may do
beyond that is a `Harm`: `Wild`, if there is no such slot, or `Tangled`, if an event is linked into its descriptor's list
twice. Each call says exactly when it does it, and all invariants hold after every call that does not; a run ends where harm
is done.

**Descriptors and epoll** (`evmap.c`, `epoll.c`). `EventMap` has the lists of events for each descriptor and both ways of
telling the kernel, at once and through coalesced changes; `EventPoll` has the kernel, a map from descriptors to interests,
which may refuse any call.

**Rate limits** (`bufferevent_ratelim.c`). `TokenBuckets` has the arithmetic, with 64-bit sizes and 32-bit ticks; `RateLimits`
has the suspension of a bufferevent and of a group. What another thread holds locked is a parameter, `busy`, of the group's
methods. The group's methods are proved against steps on an abstract view of the group, `GroupView`; the theorems about all
interleavings are about runs of those steps.

**DNS** (`evdns.c`). `DnsNames` has the suffix table, the writer and the parser of names (section 4.1.4 of RFC 1035);
`DnsReplies` the formatting of a whole reply; `DnsRequests` the hash table of requests in flight, made of circular doubly
linked lists, and the queue of waiting ones.

**Codecs** (`event_tagging.c`, `evutil.c`). `Tagging` has the tagged stream, `Inet6` the text form of IPv6 addresses, and
`Inet6Grammar` the grammar of such texts, strict as in section 2.2 of RFC 4291 and as wide as the parser is.

`Bytes` holds what the others share. Sizes are those of a 64-bit platform, `%d` that of its GNU library. Whether an allocation succeeds, what the kernel
refuses, what a descriptor delivers, what memory holds behind a buffer, the time and random numbers are parameters.

## Where the code does less than it seems to promise

Each of these is stated as an exact condition, and most with an input.

* `evbuffer_prepend` is not atomic: if no chunk can be had for what does not fit into the first one, the part that did fit
  stays in front (`EvBuffers.EvBuffer.Prepend`).
* `evbuffer_remove_buffer` ignores that its copy of the last bytes can fail; exactly these bytes are lost then
  (`EvBufferMoves.BytesLost`, `EvBufferMoves.LoseByte`). It and `evbuffer_remove` return a count cut to an `int`.
* `evbuffer_add` can leave `last_with_datap` behind, or fail an assertion, on a queue with an empty chunk behind its data
  (`EvBuffers.EvBuffer.Add`), which is what a read that brings nothing can leave (`EvBufferReading.LeavePointerBehind`).
  `evbuffer_remove_buffer` can do so to the destination, and leave that of the source behind too, where chunks without data
  change hands or are passed over (`EvBufferMoves.RemoveBuffer`, `EvBufferReading.MovePointerBehind`).
* Setting the timer of a list of common timeouts can fail for want of memory, and nobody is told: the list has an idle timer
  then (`EventLoop.Base.Schedule`, `EventLoop.LeaveIdleTimer`, `EventLoop.CallbackLeavesIdle`). An event that moves from a
  list to the heap can be lost to the heap in the same way (`EventLoop.Base.InsertTimeout`, `EventLoop.LoseEvent`).
* When an event that was lost to the heap is deleted, has its turn or is added again, another event is taken off the heap
  instead, which may be the timer of a list (`EventLoop.Base.EventDel`, `EventLoop.Base.EventAdd`,
  `EventLoop.LoseOtherTimer`), or memory outside the heap is used.
* `event_del` clears the inserted flag before the event map lets the event go, so a failure there leaves the event on its
  descriptor's list (`EventLoop.Base.EventDel`, `EventLoop.LeaveStale`); added again, it is linked into that list a second
  time (`EventLoop.Base.EventAdd`, `EventMap.EventBase.IoAdd`, `EventLoop.AddStale`).
* An event of a descriptor that is active on account of its timeout, and is added again with a new one, may end up neither
  inserted nor active (`EventQueues.AddedIsQueued`); a persistent event that cannot be added again before its callback runs
  is dropped without notice (`EventLoop.Base.Reschedule`).
* A duration of a million microseconds is not the same common timeout as one second (`EventTimes.MillionStays`).
* A limit of one's own takes the place of the cap on a single read instead of being cut to it (`RateLimits.CapHoldsOnly`).
* The refill is min(maximum, limit + ticks * rate) only for limits that are not above their maximum, which a refund can take
  them (`TokenBuckets.RefillIsCapped`); so far above that the sum wraps, a refill can make a limit negative without
  suspending anything (`RateLimits.UpdateKeepsPositive`).
* The refill callback ignores that its timer may not be added again; the side stays suspended then
  (`RateLimits.Bufferevent.RefillCallback`). So do the functions that make and configure a group; a group whose refill event
  could not be added is not refilled (`RateLimits.RateGroup.constructor`, `RateLimits.RateGroup.SetCfg`).
* Coalesced changes that cancel out do not repair a registration that the kernel has lost (`EventMap.FlushReaches`), and a
  change that the kernel refuses is forgotten (`EventMap.Flushed`).
* `evutil_inet_ntop` accepts a destination with no room for the final NUL and drops the last character (`Inet6.InetNtop`).
  `evutil_inet_pton` accepts more than the grammar of addresses (`Inet6Grammar.BeyondStrict`), octets that overflow included
  (`Inet6Grammar.OctetWraps`).
* `dnsname_to_labels` writes the byte that ends a name without checking for room (`DnsNames.DnsNameToLabels`,
  `DnsNames.OverrunBuffer`); an empty label inside a name stops every reader there (`DnsNames.GapStopsReader`,
  `DnsNames.CanonIsName`). `name_parse` copies a label before it checks its end (`DnsNames.NameParse`, `DnsNames.StrayPacket`).
  In both, the memory that is touched outside the buffer is part of the array in the model, and required only where it is
  touched.
* A reply in which an item does not go in is sent as 512 bytes marked as truncated, even if it had got less far
  (`DnsReplies.FormatResponse`, `DnsReplies.OnlyHeaderWritten`).
* `transaction_id_pick` never ends if all 65535 ids are in use (`DnsRequests.SomeIdIsFree`).
* `decode_tag_internal` pulls up five bytes and reads on while bytes continue (`Tagging.DecodeTagInternal`,
  `Tagging.SixBytesStray`); every tag that the encoder writes ends before that.
* The encoders of the tagged stream ignore that bytes may not be added (`Tagging.WholeRecord`), and `evtag_unmarshal` fails on
  payloads of 2^31 bytes and more, which `evtag_marshal` writes without complaint. Without memory to pull up the payload it
  copies from a null pointer (`Tagging.Unmarshal`), and the integer decoder misses a null pointer behind the start of a
  buffer (`Tagging.DecodeIntInternal`).

## Model

| member | source | states |
|---|---|---|
| EvBuffers.ChainNew | mkr_linux/libevent2/buffer.c:154-189 | A chunk with at least the room asked for, no data and no misalignment, or null exactly if memory is refused or the size is impossible; doubling the size never overflows and always ends |
| EvBuffers.EvBuffer.constructor | mkr_linux/libevent2/buffer.c:347-361 | A new queue is valid, empty and frozen at neither end |
| EvBuffers.EvBuffer.FindVictim | mkr_linux/libevent2/buffer.c:290-319 | The pointer found is that to the first chunk at or after the last one with data that is empty, or the end of the list |
| EvBuffers.EvBuffer.LinkLast | mkr_linux/libevent2/buffer.c:272-285 | Everything behind the place found is cut off and the new chunk ends the list, `last` and the links agreeing again |
| EvBuffers.EvBuffer.ChainInsert | mkr_linux/libevent2/buffer.c:290-319 | The contents grow by exactly the bytes of the chunk, which becomes the last one; exactly when `last_with_datap` leads to the last chunk with data afterwards; and the assertion on empty chunks fails exactly if, from the chunk that it leads to on, data comes behind an empty chunk |
| EvBuffers.EvBuffer.AddToLast | mkr_linux/libevent2/buffer.c:1543-1634 | Writing into the free space of the last chunk appends exactly those bytes; `last_with_datap` stays right if and only if nothing is written or it led to that chunk |
| EvBuffers.EvBuffer.ChainAlign | mkr_linux/libevent2/buffer.c:1719-1726 | Moving a chunk's data to the start of its memory changes no byte of any chunk |
| EvBuffers.EvBuffer.Add | mkr_linux/libevent2/buffer.c:1543-1634 | For every queue whose bytes are right, `last_with_datap` left behind or not: it succeeds if and only if it is not frozen, the sum does not overflow, and the bytes fit into the last chunk as it is or realigned, or there is memory for a possible size; the contents become the old ones followed by the data, or stay as they were; the assertion on empty chunks fails if and only if `Aborts`; all invariants hold afterwards if and only if `PointerKept`, where they held before (nothing is added, `last_with_datap` leads to the last chunk, or the bytes go on into a new chunk in one of two ways), or `PointerMended`, where they did not; a settled queue stays settled |
| EvBuffers.EvBuffer.OpenFront | mkr_linux/libevent2/buffer.c:1636-1716 | An empty first chunk offers all its memory in front, and no bytes change |
| EvBuffers.EvBuffer.PrependToFirst | mkr_linux/libevent2/buffer.c:1636-1716 | Bytes written before the data of the first chunk come before the old contents |
| EvBuffers.EvBuffer.PushFront | mkr_linux/libevent2/buffer.c:1636-1716 | A new chunk in front puts its bytes before the old contents and keeps `last_with_datap` on the chunk that it led to |
| EvBuffers.EvBuffer.Prepend | mkr_linux/libevent2/buffer.c:1636-1716 | The contents become the data followed by the old ones; the exact condition for success; and, where no chunk can be had for what does not fit, exactly the part that did fit stays in front |
| EvBuffers.EvBuffer.ZeroChain | mkr_linux/libevent2/buffer.c:745-753 | The queue is empty and has no chunk |
| EvBuffers.EvBuffer.FreeDrained | mkr_linux/libevent2/buffer.c:988-1009 | Whole chunks are freed up to the one that holds the first byte to stay, and a `last_with_datap` that led out of a freed chunk is reset to the address of `first` |
| EvBuffers.EvBuffer.Drain | mkr_linux/libevent2/buffer.c:958-1026 | Exactly the first bytes go, all of them if there are not as many, or none if the start is frozen |
| EvBuffers.EvBuffer.CopyOut | mkr_linux/libevent2/buffer.c:1043-1088 | The first bytes are copied to the start of the destination, the rest of which and the queue stay as they are |
| EvBuffers.EvBuffer.Remove | mkr_linux/libevent2/buffer.c:1029-1041 | Bytes come out at the front and are gone from the queue; the count comes back cut to an `int` |
| EvBuffers.EvBuffer.AdvanceLastWithData | mkr_linux/libevent2/buffer.c:653-667 | On any list, the pointer moves over the chunks with data that follow one after the other and stops at the last of them |
| EvBuffers.EvBuffer.LastSound | mkr_linux/libevent2/buffer.c:1561-1585 | The last chunk of a queue is the end of its list, within its memory, even where `last_with_datap` has been left behind |
| EvBuffers.AppendPiece | mkr_linux/libevent2/buffer.c:290-319 | Putting bytes in the place of empty chunks behind the last data appends them to the whole, and tells exactly when the old last chunk with data is still the last or the new one is |
| EvBuffers.ExtendLast | mkr_linux/libevent2/buffer.c:1561-1585 | Growing the very last chunk appends to the whole; the last chunk with data is still named right if and only if nothing was added or it was that one |
| EvBuffers.DropPieces | mkr_linux/libevent2/buffer.c:988-1022 | Dropping whole chunks and part of the next drops that many bytes of the whole and keeps the last chunk with data |
| EvBufferMoves.CopyChain | mkr_linux/libevent2/buffer.c:820-832 | The destination holds the chunks and bytes of the source |
| EvBufferMoves.AppendChain | mkr_linux/libevent2/buffer.c:834-846 | The list of the source, joined behind that of the destination, adds its bytes at the end |
| EvBufferMoves.PrependChain | mkr_linux/libevent2/buffer.c:848-864 | The list of the source, joined before that of the destination, adds its bytes in front |
| EvBufferMoves.AddBuffer | mkr_linux/libevent2/buffer.c:866-910 | All bytes of one queue move to the end of the other, or nothing happens if either is frozen; afterwards the two still share no chunk; a queue added to itself stays as it is |
| EvBufferMoves.PrependBuffer | mkr_linux/libevent2/buffer.c:912-956 | All bytes of one queue move to the front of the other, or nothing happens if either is frozen; the two still share no chunk |
| EvBufferMoves.WholeChunks | mkr_linux/libevent2/buffer.c:1126-1138 | The walk stops at the chunk that holds the first byte to stay, which is where `WholePieces` says, with the number of its bytes that are still to move; empty chunks are passed over |
| EvBufferMoves.AfterMove | mkr_linux/libevent2/buffer.c:1126-1153 | Where `advance_last_with_data` stops once chunks have been hung behind those of another queue, it leads to the last chunk with data if and only if no data comes behind an empty one among them, the first of all not counted if there was no data before; and what that means for bytes that are added next |
| EvBufferMoves.Splice | mkr_linux/libevent2/buffer.c:1140-1157 | Whole chunks leave the one list and hang behind the data of the other, in place of an empty chunk there; links and `last` of both lists are right |
| EvBufferMoves.RemovePart | mkr_linux/libevent2/buffer.c:1093-1181 | Where the source keeps some bytes, the first `Moved` of those that leave it arrive, in order: all of them, or the whole chunks alone; exactly when the invariants of either queue hold again, and when the assertion in `evbuffer_add` fails |
| EvBufferMoves.RemoveBuffer | mkr_linux/libevent2/buffer.c:1093-1181 | On all valid queues, empty chunks anywhere in them included: the first bytes leave the source and exactly the first `Moved` of them arrive, in order, at the end of the destination; the count that comes back does not tell the difference; the invariants of the source hold again if and only if `SourceKept`, those of the destination if and only if `DestinationKept`, and an assertion fails if and only if `MoveAborts`: all three are conditions on where the two queues have empty chunks, and never stand in the way if no chunk of either is empty unless it is alone |
| EvBufferMoves.LeftIs | mkr_linux/libevent2/buffer.c:1126-1171 | What is left of the source holds the bytes behind those that leave it; its `last_with_datap` leads to the last chunk with data unless only empty chunks were passed over, up to the one that it led to |
| EvBufferMoves.BytesLost | mkr_linux/libevent2/buffer.c:1149-1178 | Bytes are lost if and only if some bytes stay behind in the source, the last ones to go do not make up a whole chunk, and they have no place: the sum overflows, or they do not fit behind the whole ones, or at the end of the destination if those hold no data, and there is no memory for a possible size; what is lost is exactly those last ones |
| EvBufferMoves.LoseByte | mkr_linux/libevent2/buffer.c:1149-1178 | A run that ends so: of three bytes one is to go to an empty queue without memory, and is in neither queue afterwards |
| EvBufferPullup.CopyWhole | mkr_linux/libevent2/buffer.c:1253-1267 | The bytes of whole chunks are gathered in order, and the two flags tell whether the last chunk with data, or the one before it, was freed |
| EvBufferPullup.PulledPieces | mkr_linux/libevent2/buffer.c:1253-1291 | Gathering bytes in front of what remains keeps the whole and tells which chunk holds the last data, in each of the four cases |
| EvBufferPullup.PullInto | mkr_linux/libevent2/buffer.c:1253-1291 | `last` and `last_with_datap` are right again whether the last chunk with data survived, was freed, or lost its predecessor |
| EvBufferPullup.Pullup | mkr_linux/libevent2/buffer.c:1183-1293 | The contents do not change; on success the first `size` bytes lie together in the first chunk; it succeeds if and only if some bytes are wanted, there are as many, and the first chunk has room for them where its data starts or there is memory for a possible size |
| EvBufferRuns.Single | mkr_linux/libevent2/buffer.c:866-1716 | An operation on one queue does to its flat bytes what is meant of the part of its bytes that finds a place, `Accepted`: a value of the chunks and of whether there is memory |
| EvBufferRuns.Alone | mkr_linux/libevent2/buffer.c:866-1716 | An operation on one queue leaves another one alone, and the two still share no storage |
| EvBufferRuns.Both | mkr_linux/libevent2/buffer.c:866-1181 | The three moves between two queues do to their flat bytes what is meant of the `Accepted` bytes |
| EvBufferRuns.Run | mkr_linux/libevent2/buffer.c:745-1716 | Over any run of adding, prepending, draining, removing, pulling up, freezing and moving on two queues, each state follows from the one before as two flat byte sequences would, with as many bytes placed as `Placed` says of the chunks' sizes, offsets and data at that moment and of whether there is memory; with memory and sizes within reach the final bytes, and all bytes handed out, are those of the flat run |
| EvBufferRuns.AcceptedIsPlaced | mkr_linux/libevent2/buffer.c:1093-1716 | How many bytes find a place depends on nothing but the sizes, offsets and data of the chunks, the freezing, and whether there is memory |
| EvBufferRuns.RunIsMeant | mkr_linux/libevent2/buffer.c:745-1716 | By induction over a run, steps that each do what is meant add up to the flat run |
| EvBufferRuns.FirstInFirstOut | mkr_linux/libevent2/buffer.c:1093-1181 | Bytes added to one queue, moved on to a second in pieces of any size and taken from there come out in the order in which they went in, none lost and none twice |
| EvBufferSearch.PtrSet | mkr_linux/libevent2/buffer.c:2449-2494 | The pointer set denotes that byte of the contents, chunk and offset included; it fails exactly at or past the end |
| EvBufferSearch.PtrAdd | mkr_linux/libevent2/buffer.c:2449-2494 | Moving a pointer on denotes the byte that far on, over any number of chunks, or fails |
| EvBufferSearch.PtrMemCmp | mkr_linux/libevent2/buffer.c:2500-2534 | Comparing chunk by chunk gives what memcmp gives on the flat bytes, and -1 if there are too few |
| EvBufferSearch.MemCmpCat | mkr_linux/libevent2/buffer.c:2516-2530 | Comparing two stretches one after the other is comparing them together |
| EvBufferSearch.SearchRange | mkr_linux/libevent2/buffer.c:2542-2605 | The result is the first occurrence at or after the start that ends by the end pointer, wherever chunk borders fall, with chunk and offset denoting that byte; or nowhere, exactly if there is none |
| EvBufferSearch.FirstIsUnique | mkr_linux/libevent2/buffer.c:2574-2594 | If the first occurrence ends too late, so does every other: giving up there is right |
| EvBufferLines.FindEolChar | mkr_linux/libevent2/buffer.c:1327-1352 | The first CR or LF of a chunk, found in blocks of 128 bytes |
| EvBufferLines.FindEol | mkr_linux/libevent2/buffer.c:1354-1374 | The first CR or LF of the contents from a pointer on, over chunk borders |
| EvBufferLines.StrChr | mkr_linux/libevent2/buffer.c:1305-1325 | The first occurrence of a byte from a pointer on, over chunk borders |
| EvBufferLines.StrSpn | mkr_linux/libevent2/buffer.c:1376-1413 | The number of CR and LF bytes in a row from a pointer on, over chunk borders |
| EvBufferLines.GetChr | mkr_linux/libevent2/buffer.c:1416-1423 | The byte that a pointer denotes |
| EvBufferLines.SearchCrlf | mkr_linux/libevent2/buffer.c:1460-1477 | The first LF, with the CR before it if there is one, even if the two are in different chunks; a lone CR does not count |
| EvBufferLines.SearchEol | mkr_linux/libevent2/buffer.c:1425-1498 | For each style the earliest terminator from the start on, and its length; or none, exactly if no terminator starts there |
| EvBufferLines.Readln | mkr_linux/libevent2/buffer.c:1500-1537 | The contents were line, terminator and rest, split at the earliest terminator of the style; what is left is the rest. Without a line nothing has changed |
| EvBufferReading.Survey | mkr_linux/libevent2/buffer.c:1857-1965 | The chunks with space that have been counted really have that much room, within the number of chunks allowed; it finds enough if and only if the chunks from the last one with data on, empty ones taken whole, have it in the first `n` with space |
| EvBufferReading.Replace | mkr_linux/libevent2/buffer.c:1924-1962 | Freeing the empty chunks and adding one big enough keeps the contents and makes the room asked for; it succeeds if and only if there is memory for what the last chunk with data lacks, and a possible size of that |
| EvBufferReading.ExpandFast | mkr_linux/libevent2/buffer.c:1857-1965 | The contents do not change, and on success at least `datlen` bytes are free in the first `n` chunks that have space; it succeeds if and only if they had it before, or there is memory for a chunk of exactly what is `Missing`, and that is a possible size |
| EvBufferReading.MoreRoom | mkr_linux/libevent2/buffer.c:2050-2061 | While the vectors cover less than was made room for, there is another chunk: the loop never runs off the list |
| EvBufferReading.SetupVecs | mkr_linux/libevent2/buffer.c:2031-2065 | The vectors are the free space of consecutive chunks from the first with space on, cover what is to be read, and cover no more if an exact size is asked for |
| EvBufferReading.Readv | mkr_linux/libevent2/buffer.c:2152-2152 | Bytes that the kernel scatters over the vectors stand in the free space, in order, and disturb no data |
| EvBufferReading.CommitAll | mkr_linux/libevent2/buffer.c:2184-2209 | Handing scattered bytes over to their chunks is appending them, and `last_with_datap` leads to the chunk with the last of them |
| EvBufferReading.Read | mkr_linux/libevent2/buffer.c:2088-2217 | The contents grow by exactly the bytes read, as many as were asked for, offered and allowed; nothing changes on failure; it fails if and only if the end is frozen, readv fails, or there is neither room already nor memory; the flags stay and no chunk of another queue comes in; and a read that brings nothing leaves an empty chunk behind data that fills its own |
| EvBufferReading.LeavePointerBehind | mkr_linux/libevent2/buffer.c:1543-1634 | A run after which `last_with_datap` is wrong: a byte, a read that brings nothing, and one byte more; the bytes are right, the invariant is not |
| EvBufferReading.MovePointerBehind | mkr_linux/libevent2/buffer.c:1093-1181 | The same comes of moving bytes: with an empty chunk between two bytes that are moved, the second is copied into that chunk, behind `last_with_datap` of the destination |
| EventPoll.Kernel.Ctl | mkr_linux/libevent2/epoll.c:262-318 | The kernel accepts an addition only for a descriptor it does not have, and anything else only for one that it has, and may refuse either for reasons of its own; a refused call changes nothing |
| EventPoll.ApplyOneChange | mkr_linux/libevent2/epoll.c:174-330 | Whatever the kernel held or had lost, a change that is not empty leaves exactly the interest it asks for unless the kernel refuses it; it fails if and only if it is refused and is neither empty nor a deletion of what is gone already |
| EventMap.FitsTarget | mkr_linux/libevent2/evmap.c:647-726 | A pending change that fits asks for exactly the interest that the events add up to |
| EventMap.ListStepKeeps | mkr_linux/libevent2/evmap.c:647-726 | Adding or deleting interest keeps the pending change fitting what is wanted and what the last dispatch left |
| EventMap.CoalescingIsFaithful | mkr_linux/libevent2/evmap.c:263-387 | For every run of adds and deletes on a descriptor, applying the coalesced change leaves the kernel exactly as applying each change at once, and as the events' counts want it |
| EventMap.FlushReaches | mkr_linux/libevent2/epoll.c:174-330 | From any state of the kernel, lost or stale registrations included, a dispatch reaches the wanted interest if and only if the pending change is not empty or the kernel had it right |
| EventMap.Flushed | mkr_linux/libevent2/epoll.c:386-413 | A dispatch flushes every descriptor alike; interest and registrations agree afterwards if and only if each refused change asked for what the kernel had |
| EventMap.ApplyAllOn | mkr_linux/libevent2/epoll.c:333-349 | Applying all changes in order gives each descriptor the effect of its own change, unless that is refused, and of no other |
| EventMap.CountRemove | mkr_linux/libevent2/evmap.c:336-387 | Taking an event off a list lowers the count of readers, and of writers, by what the event was |
| EventMap.EventBase.constructor | mkr_linux/libevent2/evmap.c:186-189 | A new map is consistent and the kernel knows what it should |
| EventMap.EventBase.GetOrConstruct | mkr_linux/libevent2/evmap.c:616-644 | The descriptor's change is the one it had or a new one that does nothing; list and indices stay consistent; without memory nothing changes |
| EventMap.EventBase.ChangelistAdd | mkr_linux/libevent2/evmap.c:647-675 | The descriptor's change becomes the old one with the additions merged in; no other descriptor's changes |
| EventMap.EventBase.ChangelistDel | mkr_linux/libevent2/evmap.c:678-726 | The descriptor's change becomes the old one with the deletions merged in, a pending add being taken back unless the side was on; no other descriptor's changes |
| EventMap.EventBase.NoChangelistAdd | mkr_linux/libevent2/epoll.c:352-367 | The kernel hears of the addition at once; exactly when that fails |
| EventMap.EventBase.NoChangelistDel | mkr_linux/libevent2/epoll.c:370-383 | The kernel hears of the deletion at once; exactly when that fails |
| EventMap.EventBase.IoAdd | mkr_linux/libevent2/evmap.c:263-331 | The event joins its own descriptor's list, counts and interest follow, the back end hears of it exactly if a side turns on, and no other descriptor is touched; it fails if and only if a slot has no memory, a count would overflow, or the back end cannot hear of it, and then nothing that a descriptor sees changes; nobody looks whether the event is on that list already, and the map is inconsistent afterwards if and only if it is |
| EventMap.LinkedIn | mkr_linux/libevent2/evmap.c:263-331 | Linking an event into a descriptor's list keeps the map consistent if it was not on it, and makes its counts wrong if it was |
| EventMap.EventBase.IoDel | mkr_linux/libevent2/evmap.c:336-387 | The event leaves its descriptor's list and counts and interest follow, the back end hearing of it exactly if a side turns off; it fails if and only if the back end cannot hear of it, and then the event stays on the list |
| EventMap.EventBase.ApplyChanges | mkr_linux/libevent2/epoll.c:333-349 | The kernel holds what applying in order every change that it does not refuse makes of it; failures do not stop the others |
| EventMap.EventBase.RemoveAll | mkr_linux/libevent2/evmap.c:560-578 | The list is empty and no slot points into it |
| EventMap.EventBase.Dispatch | mkr_linux/libevent2/epoll.c:386-413 | Every descriptor's pending change has gone to the kernel or, if refused, is forgotten; every list of events is as it was, and nothing is pending; the kernel knows what it should if and only if it already did for the descriptors refused |
| EventMap.Stepped | mkr_linux/libevent2/evmap.c:728-799 | After any step the integrity checks hold for every descriptor |
| TokenBuckets.CfgNew | mkr_linux/libevent2/bufferevent_ratelim.c:142-172 | A configuration is made exactly if rates are positive, within the bursts, bursts within the largest signed size, and there is memory; it holds what was asked for, and a tick of a second if nothing was said |
| TokenBuckets.RefillIsCapped | mkr_linux/libevent2/bufferevent_ratelim.c:73-110 | The overflow-avoiding refill equals min(maximum, limit + ticks * rate) if and only if the limit is not above its maximum, or the sum wraps all the way round; it does not hold for every limit |
| TokenBuckets.UpdatedValid | mkr_linux/libevent2/bufferevent_ratelim.c:73-110 | A refill leaves the limits within the signed size, and not above the maximum if they were not |
| TokenBuckets.TokenBucket.Init | mkr_linux/libevent2/bufferevent_ratelim.c:49-70 | A new bucket holds one tick's worth; one that is configured again is clipped, never raised |
| TokenBuckets.TokenBucket.Update | mkr_linux/libevent2/bufferevent_ratelim.c:73-110 | The bucket is refilled for the ticks since the last update, counted modulo 2^32; nothing happens if no tick or too many have passed |
| TokenBuckets.UpdatesAddUp | mkr_linux/libevent2/bufferevent_ratelim.c:73-110 | Refilling in any number of steps is refilling once over the sum of the ticks |
| TokenBuckets.BandwidthBound | mkr_linux/libevent2/bufferevent_ratelim.c:200-295 | However reads are spread, a run of T ticks takes at most the maximum and T times the rate |
| RateLimits.RefillKeepsPositive | mkr_linux/libevent2/bufferevent_ratelim.c:73-110 | A refill leaves a positive limit positive exactly if the limit is within its maximum or the sum does not wrap to a negative number |
| RateLimits.UpdateKeepsPositive | mkr_linux/libevent2/bufferevent_ratelim.c:113-123 | A lazy update cannot use up a bucket, unless a refund has taken a limit so far above its maximum that the sum wraps |
| RateLimits.CapHoldsOnly | mkr_linux/libevent2/bufferevent_ratelim.c:179-260 | The cap of 16384 on a single read holds if and only if there is no limit of one's own, or it or the group's share is within the cap: a limit of one's own replaces the cap |
| RateLimits.Bufferevent.constructor | mkr_linux/libevent2/bufferevent_ratelim.c:559-635 | A new bufferevent has no limit and is suspended on no side |
| RateLimits.Bufferevent.AddRefill | mkr_linux/libevent2/bufferevent_ratelim.c:287-288 | The timer is pending afterwards if it was or can be added; a failure is told |
| RateLimits.Bufferevent.UpdateBuckets | mkr_linux/libevent2/bufferevent_ratelim.c:113-123 | The lazy update refills; it keeps the rule that a used-up side is suspended exactly while no limit wraps |
| RateLimits.Bufferevent.PayForRead | mkr_linux/libevent2/bufferevent_ratelim.c:275-295 | A read is paid for; the side is suspended exactly if the bucket is used up; it fails if and only if the refill timer is needed, not pending and cannot be added; and a suspended side has its timer pending exactly if it did not fail |
| RateLimits.Bufferevent.PayForWrite | mkr_linux/libevent2/bufferevent_ratelim.c:313-333 | The same for a write |
| RateLimits.Bufferevent.DecrementReadLimit | mkr_linux/libevent2/bufferevent_ratelim.c:901-925 | A charge or refund that crosses zero suspends or releases the side; it fails if and only if the refill timer was to be added and could not be; otherwise the timer is pending while any side is suspended |
| RateLimits.Bufferevent.DecrementWriteLimit | mkr_linux/libevent2/bufferevent_ratelim.c:928-954 | The same for writing |
| RateLimits.Bufferevent.RefillCallback | mkr_linux/libevent2/bufferevent_ratelim.c:396-441 | A refill releases exactly the sides whose bucket is no longer used up; its timer is pending again exactly if one is left suspended and it can be added: if it cannot, the side waits in vain |
| RateLimits.Bufferevent.SetRateLimit | mkr_linux/libevent2/bufferevent_ratelim.c:559-635 | After a change of the limit, sides are suspended exactly if used up and the timer is pending exactly if one is and it can be added; setting the same configuration again changes nothing; it fails exactly if the limits need memory that there is not |
| RateLimits.Bufferevent.DecrementReadBuckets | mkr_linux/libevent2/bufferevent_ratelim.c:275-310 | A read is paid for in the bucket, in the group's and in its total, and a group that is used up suspends all members whose lock it gets, the reader included; -1 exactly if the refill timer could not be added |
| RateLimits.Bufferevent.GetReadMax | mkr_linux/libevent2/bufferevent_ratelim.c:200-260 | What may be read is the least of the own limit and the group's share, never negative; while the group is suspended it is 0 for every member, reached by the suspension or not, and the member suspends itself |
| RateLimits.Bufferevent.StartJoining | mkr_linux/libevent2/bufferevent_ratelim.c:732-767 | Joining leaves the old group, enters the new one's list, and remembers whether that was suspended; joining one's own group changes nothing and succeeds; without memory for the limits it fails and changes nothing |
| RateLimits.Bufferevent.FinishJoining | mkr_linux/libevent2/bufferevent_ratelim.c:769-776 | The flag is set if the group was suspended when the bufferevent came in |
| RateLimits.Bufferevent.RemoveFromGroup | mkr_linux/libevent2/bufferevent_ratelim.c:785-806 | The bufferevent leaves the list and the group, and is released if asked |
| RateLimits.RateGroup.constructor | mkr_linux/libevent2/bufferevent_ratelim.c:638-666 | A new group has no member, is not suspended and holds one tick's worth; its refill event goes off once a tick if and only if it could be added, and nobody is told |
| RateLimits.RateGroup.ShareFor | mkr_linux/libevent2/bufferevent_ratelim.c:230-254 | A member gets its share, or nothing and its own flag while the group is suspended |
| RateLimits.RateGroup.SuspendReading | mkr_linux/libevent2/bufferevent_ratelim.c:352-373 | The group is suspended and so is every member whose lock can be had |
| RateLimits.RateGroup.UnsuspendMembers | mkr_linux/libevent2/bufferevent_ratelim.c:473-485 | Starting anywhere, every member is visited once; exactly those that cannot be locked keep their flag, and the caller is told if there are any |
| RateLimits.RateGroup.UnsuspendReading | mkr_linux/libevent2/bufferevent_ratelim.c:487-503 | The group is released, and remembers whether a member is still to be released |
| RateLimits.RateGroup.PayForRead | mkr_linux/libevent2/bufferevent_ratelim.c:297-307 | A used-up group is suspended, one that is used up no longer is released, and the total counts the bytes modulo 2^64 |
| RateLimits.RateGroup.RefillCallback | mkr_linux/libevent2/bufferevent_ratelim.c:528-556 | For reading: a refill releases the group once its limit reaches a member's minimum, or retries members that were missed |
| RateLimits.RateGroup.SetMinShare | mkr_linux/libevent2/bufferevent_ratelim.c:700-718 | The minimum is what was asked for, cut to the rates; a size beyond the signed range is refused |
| RateLimits.RateGroup.SetCfg | mkr_linux/libevent2/bufferevent_ratelim.c:669-697 | The bucket is clipped to the new configuration and the minimum follows the rates; the refill event is set to the new tick if and only if that differs and it can be added; one that could not be added before stays so if the tick is the same |
| RateLimits.StepKeepsOrder | mkr_linux/libevent2/bufferevent_ratelim.c:350-556 | Suspending, releasing, joining and leaving, in any interleaving that the locks allow, forget no member that is flagged |
| RateLimits.NobodyIsForgotten | mkr_linux/libevent2/bufferevent_ratelim.c:350-806 | In every reachable state a group that is neither suspended nor due to release somebody has no settled member with its flag set |
| RateLimits.RetryReachesAll | mkr_linux/libevent2/bufferevent_ratelim.c:487-556 | A retry that can lock every member leaves no flag and nothing pending |
| DnsNames.WalkExtends | mkr_linux/libevent2/evdns.c:943-997 | Bytes added behind a name and more jumps allowed do not change what it says |
| DnsNames.NameParse | mkr_linux/libevent2/evdns.c:944-997 | On every packet, pointer loops included, parsing ends, and succeeds exactly if a name can be read with as many jumps as the packet has bytes and fits the output; then the output is that name and the index just past its bytes; bytes behind the packet are read if and only if it `Strays`: reading comes to a label that fits the output and does not end within the packet, and then at most 63 of them |
| DnsNames.StrayPacket | mkr_linux/libevent2/evdns.c:944-997 | The packet of one byte 1 strays |
| DnsNames.LabelTable.GetPos | mkr_linux/libevent2/evdns.c:1546-1555 | The place of the first entry for a suffix, or -1 |
| DnsNames.LabelTable.Add | mkr_linux/libevent2/evdns.c:1558-1572 | The suffix is added, or not if the table is full or memory is refused |
| DnsNames.FinishPointer | mkr_linux/libevent2/evdns.c:1610-1615 | A name that ends in a pointer to a known suffix reads back whole, through the chain of pointers |
| DnsNames.FinishLabel | mkr_linux/libevent2/evdns.c:1616-1646 | A name that ends in its last label reads back whole |
| DnsNames.DnsNameToLabels | mkr_linux/libevent2/evdns.c:1586-1649 | A name is written if and only if it has at most 255 bytes, no label that is written out has more than 63, and all but the byte that ends it have room; what is written is the labels up to the longest known suffix and a pointer to that, and the table learns the suffixes in order; it reads back as the name, behind any bytes in which the table's suffixes can be read, and the table stays readable; the reader's index is just past the bytes if and only if no label written out before the last is empty; the byte behind the buffer is written if and only if the encoding is one longer than the room |
| DnsNames.OverrunBuffer | mkr_linux/libevent2/evdns.c:1642-1645 | "a" takes three bytes and is written into a buffer of two |
| DnsNames.EncodedSize | mkr_linux/libevent2/evdns.c:1586-1649 | An encoding has the bytes that are asked room for, or one more |
| DnsNames.CanonIsName | mkr_linux/libevent2/evdns.c:1586-1649 | A name comes back as it was if and only if it is empty, or none of its labels is |
| DnsNames.NamesComeBack | mkr_linux/libevent2/evdns.c:943-997 | A name that was written is read back by the parser's own limit on jumps |
| DnsNames.GapStopsReader | mkr_linux/libevent2/evdns.c:1618-1635 | An input for which the index is not past the bytes: with an empty label inside, the reader stops in the middle of what was written |
| DnsReplies.AppendBytes | mkr_linux/libevent2/evdns.c:1593-1606 | Numbers and data go in exactly if there is room, and say themselves; otherwise the message is what it was |
| DnsReplies.AppendName | mkr_linux/libevent2/evdns.c:1903-1928 | A name goes into the message and reads back there, or is the first part that does not fit, which is decided by the compressed size |
| DnsReplies.AppendSizedName | mkr_linux/libevent2/evdns.c:1933-1942 | The length that is put before a name only after the name was written is the number of its bytes, and putting it in spoils no name |
| DnsReplies.AppendItem | mkr_linux/libevent2/evdns.c:1924-1951 | An item goes in as name, type, class, time to live, length and data, up to the first of these that does not fit |
| DnsReplies.FormatQuestions | mkr_linux/libevent2/evdns.c:1903-1913 | All questions go in, in order, up to the first part that does not fit; it is an error if and only if that part is a name |
| DnsReplies.FormatItems | mkr_linux/libevent2/evdns.c:1915-1952 | All items of a section go in, in order, up to the first part that does not fit |
| DnsReplies.FormatResponse | mkr_linux/libevent2/evdns.c:1877-1971 | The reply says exactly header, questions and items, part after part, up to the first part that does not fit into 1500 bytes with compression; it fails if and only if the error code is out of range, that part is the name of a question, or there is no memory; it is truncated if and only if a part does not fit or the whole is longer than 512 bytes; a truncated one has 512 bytes, says so, and shows as much of what was written as they hold |
| DnsReplies.OnlyHeaderWritten | mkr_linux/libevent2/evdns.c:1953-1965 | If the first item has too long a label, 12 of the 512 bytes sent have been written |
| DnsReplies.FittedMore | mkr_linux/libevent2/evdns.c:1877-1971 | Where the parts stop fitting does not depend on what would have come after |
| DnsReplies.NamesReadBack | mkr_linux/libevent2/evdns.c:943-997 | Every name of such a reply, wherever it stands and whatever suffixes it shares with the others, is found by the parser, with the index just past its bytes |
| DnsRequests.Insert | mkr_linux/libevent2/evdns.c:2671-2684 | The request is last in the circular list, linked both ways |
| DnsRequests.Remove | mkr_linux/libevent2/evdns.c:2633-2667 | The request is out of the circular list, the others in their order and linked both ways, the head moved on if it was the request |
| DnsRequests.RequestTable.Find | mkr_linux/libevent2/evdns.c:478-493 | The request in flight with that id, or none exactly if no request has it |
| DnsRequests.RequestTable.Put | mkr_linux/libevent2/evdns.c:2773-2788 | The request joins the list of its id; ids stay distinct |
| DnsRequests.RequestTable.Take | mkr_linux/libevent2/evdns.c:2633-2667 | The request leaves the list of its id, and no other list changes |
| DnsRequests.DnsBase.PickId | mkr_linux/libevent2/evdns.c:1304-1316 | The id picked is the first of the random numbers that is that of no request in flight and not 0xffff; there is none exactly if no number will do |
| DnsRequests.SomeIdIsFree | mkr_linux/libevent2/evdns.c:1304-1316 | Some id is free if and only if fewer than 65535 are in use; otherwise the source draws for ever |
| DnsRequests.DnsBase.Submit | mkr_linux/libevent2/evdns.c:2773-2788 | A request with a nameserver goes in flight, another one waits at the end; the counters are the lengths of the lists |
| DnsRequests.DnsBase.Pump | mkr_linux/libevent2/evdns.c:733-759 | The oldest waiting requests go in flight, in order, as long as the limit allows; each has a nameserver and an id of its own; it stops earlier only if there is no nameserver for the next one or none of the random numbers left will do |
| DnsRequests.DnsBase.Unqueue | mkr_linux/libevent2/evdns.c:647-697 | The request leaves whichever list it was on, and that list's counter follows |
| DnsRequests.DnsBase.Finish | mkr_linux/libevent2/evdns.c:647-697 | The request is gone and the oldest waiting ones take its place |
| DnsRequests.DnsBase.SetMaxInflight | mkr_linux/libevent2/evdns.c:3330-3358 | Moving to a table of another size keeps the set of requests, each in the list of its id there; a failed call changes nothing |
| DnsRequests.MoveList | mkr_linux/libevent2/evdns.c:3345-3351 | One list's requests move over, none lost and none twice |
| Tagging.IntRoundTrip | mkr_linux/libevent2/event_tagging.c:115-384 | Decoding an encoded integer gives it back and takes exactly its own bytes, whatever follows, for all 32- and 64-bit values |
| Tagging.EncodeIntInternal | mkr_linux/libevent2/event_tagging.c:115-148 | The nibble loop writes exactly the encoding, in at most one byte more than the integer has |
| Tagging.DecodeIntInternal | mkr_linux/libevent2/event_tagging.c:306-365 | The nibble loop reads what stands at the offset, without draining, or fails if too little stands there or `evbuffer_pullup` finds no memory; but behind an offset that is not 0 it does not notice the null pointer, and reads near address 0 if and only if one of the two calls returns one |
| Tagging.EncodeInt | mkr_linux/libevent2/event_tagging.c:151-166 | The encoding goes to the end of the buffer, or nothing if there is no memory, and nobody is told |
| Tagging.DecodeInt | mkr_linux/libevent2/event_tagging.c:367-384 | The integer is read and exactly its bytes are drained; nothing is on failure, want of memory included |
| Tagging.TagRoundTrip | mkr_linux/libevent2/event_tagging.c:172-234 | Decoding an encoded tag gives it back and takes exactly its own bytes |
| Tagging.EncodeTag | mkr_linux/libevent2/event_tagging.c:172-192 | Seven bits to a byte, lowest first, in at most five bytes for a 32-bit tag, at the end of the buffer, or nothing if there is no memory |
| Tagging.DecodeTagInternal | mkr_linux/libevent2/event_tagging.c:194-234 | On every buffer: the tag at the front, cut to 32 bits, and its length; drained if asked; nothing on failure, want of memory included; bytes behind the five that are pulled up are read if and only if all five continue and there are more (`TagInReach`) and there was memory, and the number of those is returned |
| Tagging.ReachDecides | mkr_linux/libevent2/event_tagging.c:194-234 | What is read is what stands in the buffer, and nothing else is read, if and only if the tag or the buffer ends within five bytes |
| Tagging.SixBytesStray | mkr_linux/libevent2/event_tagging.c:194-234 | Six bytes of 0x80 hold no tag, but one is found in them if the byte of memory behind the fifth ends it |
| Tagging.Marshal | mkr_linux/libevent2/event_tagging.c:248-255 | Tag, length and payload go to the end of the buffer, each of them only if it finds memory |
| Tagging.WholeRecord | mkr_linux/libevent2/event_tagging.c:248-255 | What arrives is the record if and only if tag and length find memory, and the payload does or is empty |
| Tagging.UnmarshalHeader | mkr_linux/libevent2/event_tagging.c:429-442 | On every buffer: tag and length are taken off the front, as far as there is memory to pull them up; fewer bytes than the length is a failure; a length of 2^31 or more comes back negative; memory behind the pulled-up bytes is read exactly if the tag is out of reach |
| Tagging.Unmarshal | mkr_linux/libevent2/event_tagging.c:458-471 | On every buffer: the payload moves to the destination, and only that; records of 2^31 bytes or more fail, as do those for which the destination has no memory; it copies from a null pointer if and only if the payload has bytes, the destination has memory and `evbuffer_pullup` has none |
| Tagging.RecordRoundTrip | mkr_linux/libevent2/event_tagging.c:248-471 | A record is read back as it was written, nothing behind it is touched, and its tag is in reach |
| Tagging.StreamRoundTrip | mkr_linux/libevent2/event_tagging.c:248-471 | Any list of records (32-bit tag, payload below 2^31 bytes) comes back as the same list, and the buffer is empty then |
| Inet6.FindGap | mkr_linux/libevent2/evutil.c:1641-1658 | The gap found is the first of the longest runs of zero words, if that has two at least |
| Inet6.PrintHex | mkr_linux/libevent2/evutil.c:1660-1677 | What is printed is the words in hexadecimal with the gap left out, at either end too |
| Inet6.PrintV4 | mkr_linux/libevent2/evutil.c:1623-1640 | The two forms with a dotted quad |
| Inet6.InetNtop | mkr_linux/libevent2/evutil.c:1612-1681 | The text is the form of the address; it is written, with its NUL, if the destination is longer than it. A destination of exactly its length is accepted too, and loses the last character |
| Inet6.ScanLoop | mkr_linux/libevent2/evutil.c:1742-1771 | The loop over the words finds the words and the gap that `ScanWords` does, or fails where that does; `ParsedExactly` says which texts these are |
| Inet6.ReadQuadAtEnd | mkr_linux/libevent2/evutil.c:1712-1739 | A dotted quad at the end gives the last two words, and the scan of words ends before it; a number too large for an `int` is read as the 64-bit GNU library reads it, saturated to a `long` and cut |
| Inet6.OpenGap | mkr_linux/libevent2/evutil.c:1778-1787 | The words behind the gap move to the end and zeros take their place |
| Inet6.InetPton | mkr_linux/libevent2/evutil.c:1708-1793 | It succeeds if and only if `Parsed` does, and stores those words; on failure the destination is as it was |
| Inet6Grammar.ParsedExactly | mkr_linux/libevent2/evutil.c:1708-1793 | The texts that are accepted, and the words that they are parsed to, are exactly the notations of the wider grammar `Lax`, with or without one colon behind a last word, and what they stand for |
| Inet6Grammar.StrictReads | mkr_linux/libevent2/evutil.c:1708-1793 | Every text of the grammar in section 2.2 of RFC 4291 is accepted and parsed to the words that it stands for |
| Inet6Grammar.LaxReads | mkr_linux/libevent2/evutil.c:1708-1793 | Every text of the wider grammar is accepted and parsed to the words that it stands for |
| Inet6Grammar.ParsedIsLax | mkr_linux/libevent2/evutil.c:1708-1793 | Every text that is accepted is one of the wider grammar, and stands for the words found |
| Inet6Grammar.OctetWraps | mkr_linux/libevent2/evutil.c:1722-1733 | 4294967297 is an octet, and is read as 1 |
| Inet6Grammar.OneNotation | mkr_linux/libevent2/evutil.c:1708-1793 | No text can be understood in two ways |
| Inet6Grammar.BeyondStrict | mkr_linux/libevent2/evutil.c:1708-1793 | Of the texts that are accepted, those outside section 2.2 of RFC 4291 are exactly those with a colon behind, a word that starts with "0x", or an octet with spaces, a sign or more than three digits |
| Inet6Grammar.ColonTooMany | mkr_linux/libevent2/evutil.c:1742-1771 | "1:1:1:1:1:1:1:1:" is accepted |
| Inet6Grammar.HexFormStrict | mkr_linux/libevent2/evutil.c:1612-1681 | What is printed in hexadecimal is a text of the grammar, wherever the gap is, and stands for the eight words |
| Inet6Grammar.V4FormStrict | mkr_linux/libevent2/evutil.c:1612-1681 | What is printed with a dotted quad is a text of the grammar and stands for the eight words |
| Inet6Grammar.RoundTrip | mkr_linux/libevent2/evutil.c:1612-1793 | Parsing the printed form of any of the 2^128 addresses gives the same eight words |
| EventTimes.StampReads | mkr_linux/libevent2/event.c:1092-1127 | Time and list can be read back from a tagged time, and masking it leaves the plain time |
| EventTimes.StampsCompare | mkr_linux/libevent2/event.c:2574-2601 | Within one list, comparing tagged times is comparing the times |
| EventTimes.NextIsStamp | mkr_linux/libevent2/event.c:2162-2175 | An interval added to now, its tag taken off before and put on after, is the sum of the times with that tag |
| EventTimes.NextRunIsStamp | mkr_linux/libevent2/event.c:1256-1321 | The next time of a persistent event is that of the microseconds, with the tag of its interval |
| EventTimes.CorrectedIsStamp | mkr_linux/libevent2/event.c:2454-2503 | A time moved back by any offset, in the heap or in a list, is that much earlier and keeps its tag |
| EventTimes.DurationIsInterval | mkr_linux/libevent2/event.c:1182-1253 | A duration brought into shape and tagged is an interval of its list |
| EventTimes.MillionStays | mkr_linux/libevent2/event.c:1182-1253 | A million microseconds are not brought into shape, so they and one second stay different durations |
| EventQueues.MembershipsUpdate | mkr_linux/libevent2/event.c:2533-2643 | The number of (non-internal event, queue) memberships changes by what the event's flags say |
| EventQueues.AddedIsQueued | mkr_linux/libevent2/event.c:2100-2160 | After `event_add` an event of a descriptor is inserted or active, except exactly if it was active on account of a timeout, was not inserted, and got a new timeout |
| MinHeaps.ShiftUp | mkr_linux/libevent2/minheap-internal.h:133-143 | On any array in heap order but for one slot that may be earlier than its parent: the same events in heap order, each knowing its slot, and no place outside changed |
| MinHeaps.ShiftDown | mkr_linux/libevent2/minheap-internal.h:145-158 | The same where the slot may be later than its children |
| MinHeaps.Push | mkr_linux/libevent2/minheap-internal.h:71-77 | The array holds the event besides, in heap order |
| MinHeaps.Erase | mkr_linux/libevent2/minheap-internal.h:96-115 | The array loses the event that is in the slot that the given one knows, which need not be that one, and is in heap order again |
| MinHeaps.TopIsLeast | mkr_linux/libevent2/minheap-internal.h:69-69 | The event in the first slot is not later than any other |
| EventLoop.Base.constructor | mkr_linux/libevent2/event.c:552-654 | A new base is valid and has no event |
| EventLoop.Base.RemoveTimeout | mkr_linux/libevent2/event.c:2533-2571 | The event leaves the heap or its list, the rest of which stays sorted; flags, queues and counts agree; one that was lost to the heap takes the event in the slot that it knows off the heap instead, exactly then; one that leaves a list knows the slot that its links spell |
| EventLoop.Base.RemoveActive | mkr_linux/libevent2/event.c:2533-2571 | The event leaves the active queue of its priority; flags, queues and counts agree |
| EventLoop.Base.RemoveInserted | mkr_linux/libevent2/event.c:2533-2571 | The event leaves the list of inserted events; flags, queues and counts agree |
| EventLoop.Base.InsertActive | mkr_linux/libevent2/event.c:2603-2643 | The event is last in the active queue of its priority; inserting it twice does nothing |
| EventLoop.Base.InsertInserted | mkr_linux/libevent2/event.c:2603-2643 | The event is on the list of inserted events; the count follows |
| EventLoop.Base.FindPlace | mkr_linux/libevent2/event.c:2574-2601 | The place is behind all events that are not later, looked for from the end, with the tagged times compared |
| EventQueues.SortedInsert | mkr_linux/libevent2/event.c:2574-2601 | An event put there leaves the list sorted |
| EventLoop.Base.InsertTimeout | mkr_linux/libevent2/event.c:2603-2643 | The event is in its list in order, or in the heap; or it waits in neither, exactly if the array of the heap is full and cannot grow |
| EventLoop.Base.AddTimeoutArmed | mkr_linux/libevent2/event.c:2116-2196 | The event waits for its time, with the tag of its list; a timeout that had made it active is forgotten; if it comes first in its list the list's timer is set to its time; exactly when the event is lost to the heap, the timer left idle, or another event taken off the heap instead of it or of the timer, with what that does to the other's list (`IsTimeSet`); nothing else changes |
| EventLoop.Base.JoinQueue | mkr_linux/libevent2/event.c:2116-2191 | The event is off the heap or its old list and waits in the new place, or in neither; exactly which event the heap has lost afterwards; its list is in order, and its timer still to be set if the event comes first |
| EventLoop.Base.EventAdd | mkr_linux/libevent2/event.c:2058-2205 | The exact new state of the event; it fails if and only if `AddFails`: the heap cannot reserve a place, or the event map refuses, and then nothing has changed; exactly what harm is done that nobody is told of: memory outside the heap is used if and only if the event, or the timer that is set for it, was lost to the heap and knows a slot outside it, and the event is linked into its descriptor's list twice if and only if a failed deletion had left it there and it is neither active nor refused; all invariants hold again if and only if none is done; exactly which lists lose their armed timer, and which events the heap loses: none but the event or the timer itself, unless these were lost before |
| EventLoop.Base.AddReserved | mkr_linux/libevent2/event.c:2099-2196 | The same without the reservation at the start: it fails exactly if the event map refuses |
| EventLoop.Base.ScheduleTimer | mkr_linux/libevent2/event.c:1140-1148 | The timer is set to the time of the first event without the tag, if it waits already or the heap has or gets room for it, and otherwise nothing happens; if it was lost to the heap, another event is lost now |
| EventLoop.Base.Schedule | mkr_linux/libevent2/event.c:1140-1148 | The list is armed afterwards if and only if its timer was on some queue, or the heap has or gets room for it; another list loses its timer exactly if that is what is taken off the heap instead |
| EventLoop.Base.Reserve | mkr_linux/libevent2/minheap-internal.h:117-131 | The array grows to what is needed, and fails exactly if it must and cannot |
| EventLoop.LeaveIdleTimer | mkr_linux/libevent2/event.c:2077-2196 | A run in which a move within full memory leaves the new list with an idle timer |
| EventLoop.LoseEvent | mkr_linux/libevent2/event.c:2077-2196 | A run in which a move within full memory loses the event to the heap; the event was the last of its list, so its links spell slot 0 |
| EventLoop.LoseOtherTimer | mkr_linux/libevent2/event.c:2533-2571 | That run goes on: the lost event is deleted, the timer in slot 0 leaves the heap instead, and an event still waits in that timer's list |
| EventLoop.Base.Attach | mkr_linux/libevent2/event.c:2100-2113 | The event is inserted exactly if the map takes it, and is on its descriptor's list then; the map is consistent afterwards if and only if no failed deletion had left the event there |
| EventLoop.Base.InsertedIsListed | mkr_linux/libevent2/event.c:2100-2113 | In every valid state an event that is inserted is on the list of its own descriptor and of no other; only events that a failed deletion left behind are there besides; and the counts of a descriptor are those of its list |
| EventLoop.Base.NoneOutOfReach | mkr_linux/libevent2/event.c:2533-2571 | As long as nothing is lost to the heap, no call uses memory outside it |
| EventLoop.Base.EventDel | mkr_linux/libevent2/event.c:2228-2299 | The event is off all queues, and off its descriptor's list if the map lets it go; it fails if and only if the map does not, and then it stays on that list although it is no longer marked as inserted; all invariants hold again; the heap loses another event if and only if this one was lost to it, and then exactly the one in the slot that it knows; a list loses its armed timer if and only if that is its timer and is not active |
| EventLoop.Base.Detach | mkr_linux/libevent2/event.c:2275-2281 | The flag goes in any case; the event leaves the list exactly if the map lets it go |
| EventLoop.LeaveStale | mkr_linux/libevent2/event.c:2275-2281 | A run that ends with an event on its descriptor's list whose flag says that it is off |
| EventLoop.AddStale | mkr_linux/libevent2/event.c:2100-2113 | That run goes on: the event is added again, and the map is inconsistent |
| EventLoop.Base.Dispatch | mkr_linux/libevent2/epoll.c:386-413 | Handing changes to the kernel, refused or not, moves no event off its descriptor's list |
| EventLoop.Base.EventActive | mkr_linux/libevent2/event.c:2320-2358 | The event is active at its priority; processing of less urgent events is told to stop |
| EventLoop.Base.Activate | mkr_linux/libevent2/event.c:2301-2317 | Activating an event keeps every list armed |
| EventQueues.ArmedFire | mkr_linux/libevent2/event.c:2507-2530 | An event that goes off, a list's timer included, leaves armed every list that was |
| EventQueues.AllFired | mkr_linux/libevent2/event.c:1157-1177 | In a sorted list, the events that are due are exactly those at the front |
| EventLoop.Base.FireDue | mkr_linux/libevent2/event.c:1157-1177 | Exactly the events of the list that are due are activated and off all other queues |
| EventLoop.Base.CommonTimeoutCallback | mkr_linux/libevent2/event.c:1157-1177 | Exactly the due events of the list are activated, the others wait in order, and the timer is set to the first of them if there is one; the list is left with an idle timer if and only if some are left, the array of the heap is full and it cannot grow |
| EventLoop.CallbackLeavesIdle | mkr_linux/libevent2/event.c:1157-1177 | A run in which that happens |
| EventLoop.Base.NothingQueued | mkr_linux/libevent2/event.c:1039-1045 | The count of events is zero exactly if no event that is not internal is queued anywhere: the exit for want of events is right |
| EventLoop.Base.HeapLeads | mkr_linux/libevent2/event.c:2411-2445 | With nothing active, some event in the heap is due no later than any event that waits, on a list or not, unless that was lost to the heap or its list has no armed timer |
| EventLoop.Base.TimeoutNext | mkr_linux/libevent2/event.c:2411-2445 | The wait never goes past the time of any pending event that was not lost and whose list has an armed timer, is as long as some event in the heap allows, and is unlimited only if the heap is empty |
| EventLoop.Base.DueWaitsForTimer | mkr_linux/libevent2/event.c:2507-2530 | Once nothing in the heap is due, an event that is due and still waits, not lost nor in a list without an armed timer, is on a list whose timer is active |
| EventLoop.Base.HeapTop | mkr_linux/libevent2/event.c:2419-2419 | The event at the top of the heap is in it, and due no later than any other there |
| EventLoop.Base.TimeoutProcess | mkr_linux/libevent2/event.c:2507-2530 | Exactly the due events of the heap are activated and off all other queues; an event that is due and still waits is about to be reached by its list's timer, unless that is idle |
| EventQueues.ShiftKeeps | mkr_linux/libevent2/event.c:2454-2503 | Moving all times back alike keeps lists sorted and armed, all counts, and the tags |
| EventLoop.Base.TimeoutCorrect | mkr_linux/libevent2/event.c:2454-2503 | When the clock has gone back, every time in the heap and in the lists goes back as far and keeps its tag; otherwise nothing does |
| EventLoop.Base.Assign | mkr_linux/libevent2/event.c:1749-1793 | A new event is on no queue and no descriptor's list |
| EventLoop.Base.InitCommonTimeout | mkr_linux/libevent2/event.c:1182-1253 | The list for a duration, brought into shape, is found or made with a timer of its own, 256 at most; the tagged duration is an interval of that list; nothing else changes; it fails exactly if the list is new and there is no memory or no index left |
| EventLoop.Base.Reschedule | mkr_linux/libevent2/event.c:1256-1321 | A persistent event waits again an interval after its last time, or after now if it did not run for that or that is already past, with the tag of its list; it is dropped if and only if it cannot be added again; exactly what harm is done if it was lost to the heap or a failed deletion had left it on its descriptor's list |
| EventLoop.Base.RunTimer | mkr_linux/libevent2/event.c:1157-1177 | When the internal timer of a list is processed, exactly the due events leave the list and nothing more urgent is left waiting; exactly when the list is left with an idle timer, and which list loses its own if this timer was lost to the heap |
| EventLoop.Base.RunEvent | mkr_linux/libevent2/event.c:1330-1388 | An event that does not persist leaves all queues, one that does waits for its next time or is dropped, before the callback runs; without a callback that is the whole change; exactly what harm is done before the callback runs (`TurnHarm`) |
| EventLoop.Base.TakeTurn | mkr_linux/libevent2/event.c:1256-1388 | Before the callback of an event runs it has left its queue, and waits for its next time or is dropped if it persists; exactly what harm is done by that, and none of the invariants is lost without it |
| EventLoop.Base.ProcessEvent | mkr_linux/libevent2/event.c:1330-1388 | An event leaves its queue before its callback runs, in the way of its kind, and while nothing more urgent appears nothing more urgent waits; exactly what harm is done before the callback runs |
| EventLoop.Base.ProcessQueue | mkr_linux/libevent2/event.c:1330-1388 | Every event picked is the first of its queue while all more urgent queues are empty, whatever the callbacks do; the count is that of events that are not internal; all invariants hold after every event, up to the one that does harm |
| EventLoop.Base.ProcessActive | mkr_linux/libevent2/event.c:1428-1453 | An event is only picked when no queue before its own holds one, even if callbacks activate more urgent ones midway; after an ordinary event only its queue is gone on with; it ends without one only when nothing is active |

## Left out

- EvBufferRuns.Run: reading lines, searching and reading from a descriptor are not operations of a run; they are proved one by one, and a read leaves a queue that need not be settled.
- DnsRequests.DnsBase.Pump: random numbers come from a finite list, and the run stops when none of them will do; the source draws on.
- EventLoop.Base.ProcessActive: callbacks are scripts of adding, deleting and activating events, as many as the script has; a callback that runs for ever is not modelled.
- EventLoop.Base.RemoveTimeout: for an event that was lost to the heap and knows a slot beyond the events in it, nothing is said of what happens; in the source memory behind them is used, within the array or outside it.
- EventLoop.Base.RunEvent: nothing is said of a run once it has linked an event into its descriptor's list twice.
- MinHeaps.Erase: the array is a value, and the places are a map from events; the source has them in memory of its own and in the events.
- RateLimits.RateGroup.RefillCallback: the write side of a group is the same code over other fields; the goings-off of the refill event itself are not steps of a run, only the interval at which it goes off is kept.
- Immutable, pinned, mapped, sendfile and reference chunks, and buffer callbacks and locks.
- `evbuffer_expand`, reserving and committing space, and `evbuffer_add_vprintf`.
- Edge-triggered events, signals, and the back ends other than epoll.
- The calculation of a tick from the time, and the random choice of the member to start with, which is a parameter.
- DNS search domains, nameserver selection and failure, the parsing of whole replies, the randomised case of questions, and the end of a base.
- The integer, string and time records of the tagged stream, which wrap the codecs proved here.
- What `%d` makes of a number too large for an `int` where the C library is not the 64-bit GNU one.
- Deferred callbacks, loop exit and break, `event_base_loop` itself, threads, and changing the number of priorities.
- The charging-server programs, HTTP, RPC, IOCP and OpenSSL.
