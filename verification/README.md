# libevent, modelled in Dafny

The vendored libevent under `frontend/ios/Pods/libevent` holds the hard code of this repository.  Seven of its components
are modelled here, each in the form of the original: objects with fields that methods update, arrays written in place,
loops.  What the fields stand for (a byte string, a set of requests, a map, what a kernel watches) is a function of them,
and the contracts and lemmas are about that.

| file | models |
|---|---|
| `Common.dfy`, `Buckets.dfy` | bytes and size limits; counting in lists of buckets |
| `Chains.dfy`, `Evbuffer.dfy`, `EvbufferSearch.dfy` | the chained buffer: lists of chunks, the cached total and pointers, search and lines (`buffer.c`) |
| `DnsName.dfy` | DNS names with compression, sections 3.1 and 4.1.4 of RFC 1035 (`evdns.c`) |
| `DnsRequests.dfy` | the request queues of the resolver and their counters (`evdns.c`) |
| `EventQueues.dfy` | the queues, flags, counters and timeouts of an event base (`event.c`) |
| `Evmap.dfy` | the map of descriptors and the list of pending changes (`evmap.c`, `changelist-internal.h`, `epolltable-internal.h`) |
| `HashTable.dfy` | the chained hash table and its two ways to grow (`ht-internal.h`) |
| `RateLimit.dfy` | the token bucket and the suspension of reading and writing (`bufferevent_ratelim.c`) |
| `TagCodec.dfy`, `Tagging.dfy` | the tagged wire format, on byte strings and on buffers (`event_tagging.c`) |

An invariant that a class's `Valid()` states holds over every run, since each method asks for it and gives it back.  Where
the code can break it, the method states exactly when it is given back: `EventQueues.EventBase.Add` and the methods it
calls, `Evmap.EventBase.IoDel`, and `GetRlimMax` and `RefillCallback` of `RateLimit.Bufferevent`.  A parameter such as
`alloc` says whether an allocation succeeds.

## What the proofs found

- `evbuffer_prepend` is not atomic: without memory for a second chunk, the end of the data has already been put in front
  of the first chunk (`buffer.c:1874-1891`).  `FailedPrepend` says exactly when nothing has changed;
  `FailedPrependExample` has an input.
- `evbuffer_remove_buffer` ignores a failing `evbuffer_add` and drops the bytes that were to be copied
  (`buffer.c:1325-1330`).  `RemoveBuffer` has the exact condition (`Lost`), `LostByteExample` an input.
- `evbuffer_remove_buffer` and `evbuffer_remove` return their byte count as an int (`buffer.c:1288`, `1342`, `1180`): a
  move of 2^31 bytes reports a negative number, and one of 2^32 - 1 bytes reports failure (`NegativeResultExample`).
- `evbuffer_reserve_space` for zero bytes and more than one vector trips an assert when the last chunk is full
  (`buffer.c:2246-2247`).  `ReserveSpace` has the exact condition, `ReserveNothingExample` an input.
- `evbuffer_reserve_space` for one vector may choose the chunk behind the first one with space (`buffer.c:2000-2004`).
  Unless that is the last chunk, `evbuffer_commit_space` then refuses the vector: `SingleCommits`, `StrayVectorExample`.
- A compression pointer has 14 bits; `dnsname_to_labels` writes positions from 0x4000 on without looking
  (`evdns.c:1641-1644`).  `PointerTarget` and `PointerReads` are the exact conditions; in `LatePointerExample` another
  name is read back.  This failure is latent: the only function that passes a table of names has a buffer of 1500
  bytes (`evdns.c:1909`).
- `dnsname_to_labels` writes the final zero byte of a name without looking for room (`evdns.c:1674`).  `NameToLabels`
  has the exact condition, `OverrunExample` an input.  The buffer of 1500 bytes can be overrun that way.
- `event_add` with a new timeout, on an event that is active because of its last timeout and no longer inserted, takes it
  off the active queue without inserting it again (`event.c:2647-2706`): it then waits for its timeout only.  `Add` says
  so; `LostInterestExample` is a run.
- `common_timeout_schedule` ignores a failing `event_add` (`event.c:1450-1456`).  From `event_add` it can fail only for an
  event that waited for a common timeout before: no place was reserved for it (`event.c:2628-2632`), and it leaves none
  behind.  If the heap is full, malloc fails, the event comes first and the timer is not set, the events of the new common
  timeout are forgotten until another one comes first.  `Schedule` and `Add` have the exact conditions,
  `ForgottenExample` is a run.
- An event that moves in the same way to a timeout of its own is marked as waiting although `min_heap_push_` failed, and
  no list has it (`event.c:3434`).  `Add` has the exact condition, `UnplacedExample` is a run.
- `evmap_io_del_` takes the event off its list even when the backend fails (`evmap.c:401-414`); the backend then watches
  for kinds that nobody wants.  `IoDel` says which; `FailedDelExample` has an input.
- A token bucket that is above its maximum, as a negative decrement leaves it, is not clipped by a refill but goes on
  growing (`bufferevent_ratelim.c:97-100`).  `RefillExact` and `StaysPositive` have the exact conditions, `AboveMaximum`
  an input.
- `decode_tag_internal` asks for five contiguous bytes and may load a sixth (`event_tagging.c:218-219`), which can lie
  outside the chunk.  `DecodeTagInternal` has the exact conditions, `SixthByteExample` an input.
- The functions that encode drop what a frozen or full buffer, or one without memory, does not take, part by part, and
  say nothing (`event_tagging.c:157-198`, `261-267`).  `Marshal` and `MarshalledFits` have the exact conditions.  With a
  frozen start, `evtag_unmarshal_header` reads the length from the bytes of the tag (`HeaderInIs`).
- `DECODE_INT_INTERNAL` looks for the null pointer of a failed `evbuffer_pullup` after it has added the offset to it
  (`event_tagging.c:328-341`), and `evtag_unmarshal` copies from that pointer without a look (`event_tagging.c:479`).
  `DecodeIntInternal`, `PeekLength` and `Unmarshal` have the exact conditions, `NullPointerExample` is a run.
- The comment on the tagged format (`event_tagging.c:80-93`) has tags and integers in big-endian order; the code writes
  the low bits first.  The model follows the code; `TagExample` and `IntExample` show it.
- A growth that fails leaves a hash table above its load limit, which `HT_REP_IS_BAD_` reports; `Insert` and `ValidIsOk`
  say exactly when, and `OverLimitExample` is a run.  Without a table, inserting then divides by zero, and a growth
  beyond the last size reads past the table of sizes (`ht-internal.h:178`, `327-331`); `Insert` says exactly when.

## Model

| member | source | states |
|---|---|---|
| Common.ToInt | frontend/ios/Pods/libevent/buffer.c:1180 | the conversion to int: negative if and only if the number modulo 2^32 is 2^31 or more, and -1 for 2^32 - 1 |
| Chains.ChainNew | frontend/ios/Pods/libevent/buffer.c:157-193 | a new empty chunk whose memory is the first power of two from 1024 on, less the header, that holds what was asked for, or just that when it is very large; none if and only if the size is too large or malloc fails |
| Chains.LayoutDrop | frontend/ios/Pods/libevent/evbuffer-internal.h:81-101 | the list invariant of what remains when whole chunks and part of one go from the front, and which bytes went |
| Chains.LayoutPull | frontend/ios/Pods/libevent/evbuffer-internal.h:81-101 | the list invariant of a list whose front was gathered into one chunk; the byte string is unchanged |
| Chains.LayoutCommit | frontend/ios/Pods/libevent/evbuffer-internal.h:81-101 | the list invariant, with the pointer moved, after a chunk at or behind the last one with data grew |
| Evbuffer.Buffer.FreeTrailingEmptyChains | frontend/ios/Pods/libevent/buffer.c:291-303 | cuts the empty chunks off the end; bytes unchanged, and the result is the slot for the next chunk |
| Evbuffer.Buffer.ChainInsert | frontend/ios/Pods/libevent/buffer.c:309-327 | appends a chunk's bytes and keeps the list invariant in every case |
| Evbuffer.Buffer.Add | frontend/ios/Pods/libevent/buffer.c:1730-1824 | appends exactly the data, or fails and changes nothing; it succeeds if and only if the end is not frozen, the size does not overflow, and the last chunk with data takes the data or there is memory for a new one |
| Evbuffer.Buffer.AddChunk | frontend/ios/Pods/libevent/buffer.c:1792-1817 | the case that fills the last chunk up and puts the rest into a new one; it fails just for want of memory and then changes nothing |
| Evbuffer.Buffer.AddReference | frontend/ios/Pods/libevent/buffer.c:2921-2958 | appends memory that the buffer may not write, or changes nothing |
| Evbuffer.Buffer.Prepend | frontend/ios/Pods/libevent/buffer.c:1827-1910 | puts exactly the data in front; when it fails is an if-and-only-if; a call that runs out of memory leaves the end of the data in front |
| Evbuffer.FailedPrepend | frontend/ios/Pods/libevent/buffer.c:1874-1891 | a prepend that ran out of memory changed nothing if and only if there was no room before the first chunk's data |
| Evbuffer.FailedPrependExample | frontend/ios/Pods/libevent/buffer.c:1874-1891 | a run: two bytes added, one drained, and a prepend of two bytes that fails and leaves one of them |
| Evbuffer.Buffer.WalkWholeChunks | frontend/ios/Pods/libevent/buffer.c:1292-1304 | the walk over the whole chunks in the first bytes, with the pointer repaired when the chunk that held it goes |
| Evbuffer.Buffer.Drain | frontend/ios/Pods/libevent/buffer.c:1101-1166 | drops exactly the first bytes, or all; fails only on a frozen start and then changes nothing |
| Evbuffer.Buffer.AppendChain | frontend/ios/Pods/libevent/buffer.c:889-905 | relinks all chunks of the source behind this buffer's data |
| Evbuffer.Buffer.PrependChain | frontend/ios/Pods/libevent/buffer.c:948-963 | relinks all chunks of the source in front of this buffer's data |
| Evbuffer.Buffer.AddBuffer | frontend/ios/Pods/libevent/buffer.c:966-1009 | moves everything to the end and leaves the source empty; both keep the invariant, bytes are conserved |
| Evbuffer.Buffer.PrependBuffer | frontend/ios/Pods/libevent/buffer.c:1055-1098 | moves everything to the front and leaves the source empty |
| Evbuffer.Buffer.AdvanceLastWithData | frontend/ios/Pods/libevent/buffer.c:704-721 | finds the last chunk with data from any chunk not behind it |
| Evbuffer.Buffer.RemoveBuffer | frontend/ios/Pods/libevent/buffer.c:1260-1347 | moves the first m = min(n, size) bytes to the end of the other buffer; both keep the invariant; exactly which bytes arrive and which are lost; the result is m converted to int, negative if and only if m modulo 2^32 is 2^31 or more |
| Evbuffer.LostByteExample | frontend/ios/Pods/libevent/buffer.c:1325-1330 | a run: two bytes added, and one of them moved without memory; the call reports one byte, which is in neither buffer afterwards |
| Evbuffer.NegativeResultExample | frontend/ios/Pods/libevent/buffer.c:1286-1289 | a run: a reference to 2^32 - 1 bytes added, and all of it moved; the call succeeds and returns -1 |
| Evbuffer.Buffer.RemoveSome | frontend/ios/Pods/libevent/buffer.c:1292-1342 | the case that relinks whole chunks and copies a part of the next one: exactly the bytes that arrive |
| Evbuffer.Buffer.PullCopy | frontend/ios/Pods/libevent/buffer.c:1419-1435 | the copying loop: what is copied, and exactly when the last data chunk or the chunk before it was freed |
| Evbuffer.Buffer.PullInto | frontend/ios/Pods/libevent/buffer.c:1399-1454 | the bytes are unchanged, the first chunk holds exactly n of them, and the pointers are repaired in all cases |
| Evbuffer.Buffer.Pullup | frontend/ios/Pods/libevent/buffer.c:1350-1461 | never changes the byte string; on success the first chunk holds at least the bytes asked for and they are returned; it fails if and only if nothing is asked for, or more than there is, or the first chunk is too small and there is no memory for another |
| Evbuffer.Buffer.ExpandScan | frontend/ios/Pods/libevent/buffer.c:2071-2096 | the counting loop: enough room in the first n chunks with space, or exactly how much there is |
| Evbuffer.Buffer.ExpandFast | frontend/ios/Pods/libevent/buffer.c:2051-2158 | keeps the bytes and makes room for datlen bytes in the first n chunks with space; nothing asked for is the one case with no such chunk; exactly one chunk for what is missing is added when the chunks are few |
| Evbuffer.Buffer.ReplaceEmptyChains | frontend/ios/Pods/libevent/buffer.c:2116-2157 | the case that replaces all empty chunks; the data stays, also when memory runs out |
| Evbuffer.Buffer.ReadSetupVecs | frontend/ios/Pods/libevent/buffer.c:2225-2260 | describes the free memory from the first chunk with space on: each vector is all of its chunk's space, or if asked for no more than is still needed; without running off the list |
| Evbuffer.Buffer.ExpandSinglechain | frontend/ios/Pods/libevent/buffer.c:1938-2045 | a chunk with enough space, the bytes unchanged; which chunk it is decides whether a vector in it can be committed |
| Evbuffer.Buffer.Resize | frontend/ios/Pods/libevent/buffer.c:2012-2034 | the copy into a larger chunk in the same place keeps bytes and invariant |
| Evbuffer.Buffer.ReserveSpace | frontend/ios/Pods/libevent/buffer.c:671-701 | reserving in any number of vectors; the assert in it fails if and only if zero bytes are reserved in several vectors and the last chunk is full; a single vector is all the space of a chunk |
| Evbuffer.ReserveNothingExample | frontend/ios/Pods/libevent/buffer.c:2246-2247 | a run: 976 bytes added, which fill the first chunk; reserving zero bytes in two vectors then fails that assert |
| Evbuffer.NearlyFullBuffer | frontend/ios/Pods/libevent/buffer.c:671-701 | a run: 972 bytes, then two reservations that need a new chunk each and are not committed |
| Evbuffer.SingleCommits | frontend/ios/Pods/libevent/buffer.c:740-770 | a single vector can be committed if and only if its chunk is the last one or the first one with space |
| Evbuffer.StrayVectorExample | frontend/ios/Pods/libevent/buffer.c:2000-2004 | that run goes on: a single vector is reserved in the middle chunk, and then cannot be committed |
| Evbuffer.Buffer.CheckVecs | frontend/ios/Pods/libevent/buffer.c:761-770 | accepts exactly the vectors that describe free memory of consecutive chunks |
| Evbuffer.Buffer.CommitSpace | frontend/ios/Pods/libevent/buffer.c:724-791 | appends exactly the memory that the vectors describe, or changes nothing; when it succeeds is an if-and-only-if |
| Evbuffer.AppendByReserving | frontend/ios/Pods/libevent/buffer.c:2051-2158 | reserving, writing and committing does what appending does |
| EvbufferSearch.PtrSet | frontend/ios/Pods/libevent/buffer.c:2623-2672 | a consistent pointer to the offset, exactly when it lies within the buffer |
| EvbufferSearch.PtrMemcmp | frontend/ios/Pods/libevent/buffer.c:2679-2712 | compares the bytes at the pointer in the flat contents, across chunk borders: zero if and only if they are there, else the sign of the first difference, and -1 when the buffer ends before |
| EvbufferSearch.SearchRange | frontend/ios/Pods/libevent/buffer.c:2721-2782 | the smallest offset from the start on where the pattern occurs in the flat contents, if it ends in the range; else not found; the start itself for no pattern or one that is too long |
| EvbufferSearch.FindEolChar | frontend/ios/Pods/libevent/buffer.c:1496-1520 | the first CR or LF of a chunk, found piece by piece |
| EvbufferSearch.Scan | frontend/ios/Pods/libevent/buffer.c:1474-1542 | the first of the wanted bytes in the flat contents |
| EvbufferSearch.StrSpn | frontend/ios/Pods/libevent/buffer.c:1545-1581 | the length of the longest run of CR and LF, and zero for a pointer without a chunk |
| EvbufferSearch.PtrSubtract | frontend/ios/Pods/libevent/buffer.c:2603-2620 | a consistent pointer that lies further in front |
| EvbufferSearch.SearchEol | frontend/ios/Pods/libevent/buffer.c:1597-1684 | the first line end of each style, and its length; not found means that there is none |
| EvbufferSearch.SearchCrlf | frontend/ios/Pods/libevent/buffer.c:1639-1659 | the style with an optional CR before the LF |
| EvbufferSearch.CopyoutFrom | frontend/ios/Pods/libevent/buffer.c:1190-1254 | copies out exactly the bytes at the offset, as many as there are |
| EvbufferSearch.Remove | frontend/ios/Pods/libevent/buffer.c:1170-1181 | returns and drops the first bytes; the result is their number converted to int, negative if and only if that modulo 2^32 is 2^31 or more |
| EvbufferSearch.Readln | frontend/ios/Pods/libevent/buffer.c:1687-1723 | old contents = line, terminator, new contents, the terminator being the first of its style; no line if and only if the start is frozen, memory is missing or there is no line end, and then nothing changes |
| DnsName.NameParse | frontend/ios/Pods/libevent/evdns.c:977-1030 | succeeds if and only if the name ends within the packet after at most as many jumps as the packet has bytes and fits the output; then gives its labels with dots and the offset behind it; ends on every packet and writes nothing beyond the output |
| DnsName.ParseStep | frontend/ios/Pods/libevent/evdns.c:994-1020 | what one byte of a name means for the rest of the parse |
| DnsName.WalkExtend | frontend/ios/Pods/libevent/evdns.c:977-1030 | what parses in a packet parses alike in every longer packet and with more jumps allowed |
| DnsName.JoinLabels | frontend/ios/Pods/libevent/evdns.c:1645-1668 | a well-formed name is its labels joined with dots, with a final dot if it has one |
| DnsName.PointerTarget | frontend/ios/Pods/libevent/evdns.c:1641-1644 | a compression pointer leads to its position if and only if the position is below 0x4000 |
| DnsName.LabelTable.GetPos | frontend/ios/Pods/libevent/evdns.c:1575-1583 | finds the first entry for a name, if there is one |
| DnsName.LabelTable.Add | frontend/ios/Pods/libevent/evdns.c:1587-1601 | adds an entry until the table is full |
| DnsName.WritingDone | frontend/ios/Pods/libevent/evdns.c:1615-1678 | when the end of a name parses, the whole name and every entry made on the way parse |
| DnsName.PutKnown | frontend/ios/Pods/libevent/evdns.c:1641-1644 | a known suffix is written as a pointer, through which the whole name parses when the offset is below 0x4000 |
| DnsName.PutEntry | frontend/ios/Pods/libevent/evdns.c:1656-1668 | one label written and entered in the table |
| DnsName.PutLast | frontend/ios/Pods/libevent/evdns.c:1646-1674 | the last label and the zero byte; the name and the new entries parse |
| DnsName.PutLabels | frontend/ios/Pods/libevent/evdns.c:1638-1669 | the loop: writes the labels up to a known suffix or the last one, or fails exactly for a label that is too long or for want of room |
| DnsName.NameToLabels | frontend/ios/Pods/libevent/evdns.c:1615-1678 | the exact bytes, entries and result for every C string and table; -1 and -2 and the final zero behind the buffer are if-and-only-ifs; a well-formed name parses back from where it was written whenever the entry it points to is below 0x4000, and every entry still leads to its own suffix |
| DnsName.BodyBound | frontend/ios/Pods/libevent/evdns.c:1615-1678 | a name takes at most two bytes more than it has characters; a well-formed one never has a label that is too long |
| DnsName.PlainSize | frontend/ios/Pods/libevent/evdns.c:1615-1678 | without a known suffix it takes one byte more, and a zero byte unless it is empty or ends in a dot |
| DnsName.OverrunExample | frontend/ios/Pods/libevent/evdns.c:1674 | a name that fits two bytes of room and puts its zero byte behind them |
| DnsName.PointerReads | frontend/ios/Pods/libevent/evdns.c:1641-1644 | a name that ends in a pointer is read as that name if and only if the low 14 bits of the offset lead to the labels of its suffix |
| DnsName.LatePointerExample | frontend/ios/Pods/libevent/evdns.c:1641-1644 | given an entry at offset 0x4000, which no caller's buffer reaches, a name that is read back as another name |
| DnsName.RoundTrip | frontend/ios/Pods/libevent/evdns.c:1615-1678 | a written name is read back by the parser, whatever is written after it |
| DnsName.WriteNames | frontend/ios/Pods/libevent/evdns.c:1615-1678 | any list of names written with one table below 0x4000: each lies right behind what was put before it, parses from its own start to itself, and ends where the next gap begins |
| DnsRequests.DnsBase.FindFromTransId | frontend/ios/Pods/libevent/evdns.c:473-487 | the request in flight with the id, or there is none |
| DnsRequests.InsertedFacts | frontend/ios/Pods/libevent/evdns.c:2755-2768 | an inserted request is in the bucket of its id; every count grows by that request |
| DnsRequests.TakenOutFacts | frontend/ios/Pods/libevent/evdns.c:2717-2751 | a removed request is gone; every count shrinks by that request |
| DnsRequests.DnsBase.Submit | frontend/ios/Pods/libevent/evdns.c:2858-2875 | into flight or to the end of the waiting list; all counters and the placement still agree |
| DnsRequests.DnsBase.SwapNs | frontend/ios/Pods/libevent/evdns.c:549-557 | moves a request between servers; their counters and every other request stay right |
| DnsRequests.DnsBase.TransactionIdPick | frontend/ios/Pods/libevent/evdns.c:1333-1344 | the first random number that is neither 0xffff nor in use |
| DnsRequests.DnsBase.NameserverPick | frontend/ios/Pods/libevent/evdns.c:1350-1382 | the first server that is up from the head on, and the head moves behind it; with none up, the next one |
| DnsRequests.DnsBase.NameserverAdd | frontend/ios/Pods/libevent/evdns.c:2502-2598 | a new server is up and behind the head, all counters and every request as before; each failure changes nothing |
| DnsRequests.DnsBase.NameserverUp | frontend/ios/Pods/libevent/evdns.c:622-641 | the server is up, and the counter of good servers agrees |
| DnsRequests.DnsBase.ReassignAt | frontend/ios/Pods/libevent/evdns.c:608-615 | one request moves to a server that is up if it was not sent yet; all counters follow |
| DnsRequests.DnsBase.NameserverFailed | frontend/ios/Pods/libevent/evdns.c:562-619 | the server is down; each of its requests that was not sent is at a server that is up, all else is as before; with no server left nothing moves |
| DnsRequests.MovedAway | frontend/ios/Pods/libevent/evdns.c:608-615 | afterwards no request that was not sent is left at the failed server |
| DnsRequests.FlightExample | frontend/ios/Pods/libevent/evdns.c:747-774 | a run from the start: a server comes, and a waiting request goes into flight to it |
| DnsRequests.FailureExample | frontend/ios/Pods/libevent/evdns.c:562-619 | that server fails, and the request is in flight to another one, where it is counted |
| DnsRequests.DnsBase.Pump | frontend/ios/Pods/libevent/evdns.c:747-774 | first come first served into flight until the limit, to servers that are up if there are any; no request is lost or doubled, nothing is left waiting without a reason |
| DnsRequests.DnsBase.FinishInFlight | frontend/ios/Pods/libevent/evdns.c:653-710 | the request goes and its id is free again, all others stay, counters agree, the queue is pumped |
| DnsRequests.DnsBase.FinishWaiting | frontend/ios/Pods/libevent/evdns.c:653-710 | the same for a waiting request |
| DnsRequests.Rehash | frontend/ios/Pods/libevent/evdns.c:3438-3448 | the new buckets hold the same requests, each in the bucket of its id, and count alike |
| DnsRequests.DnsBase.SetMaxRequestsInflight | frontend/ios/Pods/libevent/evdns.c:3426-3454 | resizing keeps the set of requests that can be found by id; without memory nothing changes |
| DnsRequests.DnsBase.ClearNameserversAndSuspend | frontend/ios/Pods/libevent/evdns.c:2413-2475 | every request in flight waits again in front of the others, in the reverse order of the buckets; none is lost, counters agree |
| EventQueues.MatchesAdd | frontend/ios/Pods/libevent/event.c:3377-3395 | a queue per priority that matches the active flags still does with one event more |
| EventQueues.MatchesRemove | frontend/ios/Pods/libevent/event.c:3236-3250 | and with one event less |
| EventQueues.EventBase.InsertInserted | frontend/ios/Pods/libevent/event.c:3361-3374 | flag and counters agree |
| EventQueues.EventBase.RemoveInserted | frontend/ios/Pods/libevent/event.c:3224-3234 | flag and counters agree |
| EventQueues.EventBase.InsertActive | frontend/ios/Pods/libevent/event.c:3377-3395 | at the end of the queue of its priority; flags, queues and counters agree |
| EventQueues.EventBase.RemoveActive | frontend/ios/Pods/libevent/event.c:3236-3250 | out of its queue; flags, queues and counters agree |
| EventQueues.EventBase.InsertActiveLater | frontend/ios/Pods/libevent/event.c:3398-3412 | at the end of the later queue unless it is active already |
| EventQueues.EventBase.RemoveActiveLater | frontend/ios/Pods/libevent/event.c:3252-3265 | out of the later queue |
| EventQueues.EventBase.InsertInorder | frontend/ios/Pods/libevent/event.c:3331-3358 | behind all events that are not later; the list stays sorted |
| EventQueues.EventBase.Reserve | frontend/ios/Pods/libevent/minheap-internal.h:133-152 | there is a place for one event more if and only if the heap was not full or there is memory; its memory doubles from 8 on |
| EventQueues.EventBase.Push | frontend/ios/Pods/libevent/minheap-internal.h:71-79 | into the heap, or not if and only if it is full and there is no memory |
| EventQueues.EventBase.InsertTimeout | frontend/ios/Pods/libevent/event.c:3415-3436 | into the heap, or into the sorted list of its common timeout; in a full heap without memory the event is marked as waiting and is in no list |
| EventQueues.EventBase.RemoveTimeout | frontend/ios/Pods/libevent/event.c:3267-3286 | out of the heap or its list |
| EventQueues.EventBase.Del | frontend/ios/Pods/libevent/event.c:2810-2898 | off every queue and out of the maps, unless the event is finalizing and then nothing changes; the maps are told exactly when it was inserted, and their failure is the only one; no common timeout loses its timer |
| EventQueues.EventBase.CallbackActivate | frontend/ios/Pods/libevent/event.c:3006-3034 | active now and not later, once; the result says whether it is new |
| EventQueues.EventBase.ActiveNolock | frontend/ios/Pods/libevent/event.c:2919-2967 | adds to the result flags of an active event and sets those of another one; ignores one that is finalizing |
| EventQueues.EventBase.ActiveLaterNolock | frontend/ios/Pods/libevent/event.c:2978-3047 | active later unless active; it does not look whether the event is finalizing |
| EventQueues.EventBase.Finalize | frontend/ios/Pods/libevent/event.c:2247-2258 | the event is off every queue, active for its finalizer, and never waits again |
| EventQueues.EventBase.MakeLaterActive | frontend/ios/Pods/libevent/event.c:3439-3451 | each later event goes to the end of its priority's queue in order; counters need no change |
| EventQueues.EventBase.AddCore | frontend/ios/Pods/libevent/event.c:2597-2766 | the whole new state of an add; it fails exactly for a finalizing event, for an event without a timeout when the heap is full and there is no memory, or for a failing map, and then changes nothing but the heap's memory |
| EventQueues.EventBase.Schedule | frontend/ios/Pods/libevent/event.c:1450-1456 | the timer of a common timeout gets the time of its first event; it is covered afterwards if and only if the heap was not full, there is memory, or the timer was set or active |
| EventQueues.LostInterestExample | frontend/ios/Pods/libevent/event.c:2647-2706 | an event for reading that waits for its timeout only, after it was added again between its timeout and its callback |
| EventQueues.ForgottenExample | frontend/ios/Pods/libevent/event.c:1450-1456 | a run: with a full heap and without memory an event moves from one common timeout to another; it is due and no timer covers it, although there was memory when another event was added behind it |
| EventQueues.UnplacedExample | frontend/ios/Pods/libevent/event.c:3434 | a run: with a full heap and without memory an event moves from a common timeout to one of its own; it is marked as waiting and is in no list |
| EventQueues.EventBase.Add | frontend/ios/Pods/libevent/event.c:2597-2766 | the whole new state with the timer of a common timeout; no timeout is forgotten and every event has a place, each with the exact exception; an event that was active because of a timeout and not inserted is afterwards not listening |
| EventQueues.EventBase.Fire | frontend/ios/Pods/libevent/event.c:3197-3202 | an expired event ends up active, and nothing else, with exactly EV_TIMEOUT |
| EventQueues.EventBase.HeapTop | frontend/ios/Pods/libevent/event.c:3193 | an event of the heap with the smallest timeout |
| EventQueues.EventBase.TimeoutProcess | frontend/ios/Pods/libevent/event.c:3181-3204 | ends; exactly the expired events of the heap become active, in the order of their times; every other event and every common list is untouched |
| EventQueues.EventBase.CommonTimeoutCallback | frontend/ios/Pods/libevent/event.c:1462-1482 | exactly the expired events, which are a prefix of the sorted list, become active in order; the timer is set for the next one unless the heap is full and there is no memory |
| EventQueues.EventBase.Take | frontend/ios/Pods/libevent/event.c:1643-1661 | the first event of a queue comes off it, and off all queues unless it is persistent or finalizing |
| EventQueues.RequeuedSnoc | frontend/ios/Pods/libevent/event.c:3181-3204 | the effect of activating one event more on every queue |
| EventQueues.EventBase.HeadsKept | frontend/ios/Pods/libevent/event.c:2810-2898 | taking an event off its list never makes a timer come too late |
| Evmap.MeaningOfAdd | frontend/ios/Pods/libevent/evmap.c:866-893 | an add to a pending change adds its kinds to what the change means |
| Evmap.MeaningOfDel | frontend/ios/Pods/libevent/evmap.c:896-946 | a delete takes its kinds away from what the change means, although it may erase an add instead of noting a delete |
| Evmap.CoalescingKeepsMeaning | frontend/ios/Pods/libevent/evmap.c:866-946 | any sequence of adds and deletes put into one change means the same as making each at once |
| Evmap.OpIsRight | frontend/ios/Pods/libevent/epolltable-internal.h:42-78 | the call chosen for a change succeeds and leaves the kernel with exactly what the change means |
| Evmap.WantedByEvents | frontend/ios/Pods/libevent/evmap.c:953-983 | a count is not zero if and only if a listed event wants that kind |
| Evmap.EventBase.Grow | frontend/ios/Pods/libevent/evmap.c:809-828 | doubles the array from 64 on and keeps the changes |
| Evmap.EventBase.GetOrConstruct | frontend/ios/Pods/libevent/evmap.c:835-863 | the one entry of a descriptor; links between descriptors and entries stay one to one |
| Evmap.EventBase.ChangelistAdd | frontend/ios/Pods/libevent/evmap.c:866-893 | what the backend is to watch for the descriptor grows by the kinds, all else is unchanged |
| Evmap.EventBase.ChangelistDel | frontend/ios/Pods/libevent/evmap.c:896-946 | what the backend is to watch for the descriptor shrinks by the kinds, all else is unchanged |
| Evmap.EventBase.IoAdd | frontend/ios/Pods/libevent/evmap.c:273-349 | counts, list and interest agree afterwards; the backend is told exactly of kinds nobody wanted yet; when it fails is an if-and-only-if, and then nothing changes |
| Evmap.EventBase.IoDel | frontend/ios/Pods/libevent/evmap.c:354-417 | the backend is told exactly of kinds nobody wants any more; when the backend fails the event is gone all the same, and the backend watches for exactly those kinds too many |
| Evmap.FailedDelExample | frontend/ios/Pods/libevent/evmap.c:401-414 | with 64 pending changes and no memory for more, the last reader of a descriptor goes and the backend still watches for it |
| Evmap.EventBase.ApplyChanges | frontend/ios/Pods/libevent/epolltable-internal.h:42-78 | after the pending changes the kernel watches for every descriptor what was to be watched; no call fails |
| Evmap.EventBase.RemoveAll | frontend/ios/Pods/libevent/evmap.c:779-797 | no descriptor is linked to a change any more |
| Evmap.EventBase.Flush | frontend/ios/Pods/libevent/evmap.c:779-797 | after a flush the kernel watches what the listed events want, and the state is ready for the next round |
| HashTable.Head.FindP | frontend/ios/Pods/libevent/ht-internal.h:144-156 | the place of the matching element in the bucket of its hash, or the end of that bucket |
| HashTable.Head.Find | frontend/ios/Pods/libevent/ht-internal.h:160-167 | looks up the map that the table stands for |
| HashTable.Head.Insert | frontend/ios/Pods/libevent/ht-internal.h:171-181 | adds one entry to the map; exactly when the entries stay within the load limit, when a bucket is looked for modulo zero, and when the sizes are read past their end |
| HashTable.Head.Remove | frontend/ios/Pods/libevent/ht-internal.h:207-219 | removes one entry from the map and returns it |
| HashTable.Head.Grow | frontend/ios/Pods/libevent/ht-internal.h:317-375 | the map is unchanged, on both paths; the new size is the first one with enough room; a failure changes nothing; the sizes are read past their end if and only if even the last one is too small |
| HashTable.Head.NextPrime | frontend/ios/Pods/libevent/ht-internal.h:326-331 | the first size with enough room, or there is none |
| HashTable.OverLimitExample | frontend/ios/Pods/libevent/ht-internal.h:171-181 | a table at its load limit that finds no memory, takes one entry more, and fails the check |
| HashTable.Head.Rehash | frontend/ios/Pods/libevent/ht-internal.h:332-349 | the fresh table holds the same elements, each in its bucket |
| HashTable.Head.RehashBucket | frontend/ios/Pods/libevent/ht-internal.h:356-368 | the cursor loop over one bucket ends and puts each element in its bucket, though an element may be met twice |
| HashTable.Head.RehashInPlace | frontend/ios/Pods/libevent/ht-internal.h:350-370 | the enlarged table holds the same elements, each in its bucket |
| HashTable.MoveFacts | frontend/ios/Pods/libevent/ht-internal.h:363-365 | moving one element to the front of its own bucket loses and doubles nothing |
| HashTable.Head.Start | frontend/ios/Pods/libevent/ht-internal.h:251-260 | the first element of the enumeration, or the table is empty |
| HashTable.Head.Next | frontend/ios/Pods/libevent/ht-internal.h:267-280 | the next element of the enumeration, or there is none |
| HashTable.OrderIsPermutation | frontend/ios/Pods/libevent/ht-internal.h:124-127 | the enumeration has each element of the map once and nothing else |
| HashTable.Head.Foreach | frontend/ios/Pods/libevent/ht-internal.h:124-127 | visits each element exactly once |
| HashTable.Head.RepIsBad | frontend/ios/Pods/libevent/ht-internal.h:388-420 | zero if and only if the table is in order |
| HashTable.Head.ValidIsOk | frontend/ios/Pods/libevent/ht-internal.h:388-420 | a table that these operations built passes that check if and only if it is within its load limit |
| RateLimit.RefillExact | frontend/ios/Pods/libevent/bufferevent_ratelim.c:74-111 | the overflow-free refill is min(maximum, limit + ticks * rate) if and only if the limit is at most the maximum or the wrapped distance is at most ticks * rate |
| RateLimit.RefillSplits | frontend/ios/Pods/libevent/bufferevent_ratelim.c:74-111 | two refills in a row do what one refill for all the ticks does |
| RateLimit.AboveMaximum | frontend/ios/Pods/libevent/bufferevent_ratelim.c:97-100 | a limit above its maximum goes on growing |
| RateLimit.StaysPositive | frontend/ios/Pods/libevent/bufferevent_ratelim.c:97-100 | a positive limit stays positive if and only if the sum does not overflow |
| RateLimit.RefillResumes | frontend/ios/Pods/libevent/bufferevent_ratelim.c:97-100 | how many ticks make an exhausted bucket positive again |
| RateLimit.FreshenedFacts | frontend/ios/Pods/libevent/bufferevent_ratelim.c:80-85 | tick numbers that wrap never credit a tick twice |
| RateLimit.RunBound | frontend/ios/Pods/libevent/bufferevent_ratelim.c:198-258 | over any run of waiting and allowed transfers, what one direction moves is at most its limit and its rate for the ticks that went by |
| RateLimit.UpdatedIsFreshened | frontend/ios/Pods/libevent/bufferevent_ratelim.c:74-111 | the update of a bucket is the update of each of its two directions in such a run |
| RateLimit.Bufferevent.MoveUpTo | frontend/ios/Pods/libevent/bufferevent_ratelim.c:198-308 | moves exactly the smaller of what is wanted and what is left; both directions gain at most their rate for each tick |
| RateLimit.Bufferevent.Act | frontend/ios/Pods/libevent/bufferevent_ratelim.c:198-439 | the same for each step: a wait, a transfer, or the refill timer; no step breaks the suspension invariant |
| RateLimit.Bufferevent.Run | frontend/ios/Pods/libevent/bufferevent_ratelim.c:198-439 | over any run of waits, transfers both ways and timer callbacks, each direction of a bufferevent moves at most what it had left and its rate for the ticks since its last update |
| RateLimit.RunFromConfiguration | frontend/ios/Pods/libevent/bufferevent_ratelim.c:560-635 | from its configuration on, a bufferevent moves at most its burst and its rate for each tick, in each direction |
| RateLimit.BurstBound | frontend/ios/Pods/libevent/bufferevent_ratelim.c:198-258 | from its configuration on, one direction moves at most its burst and its rate for each tick |
| RateLimit.Init | frontend/ios/Pods/libevent/bufferevent_ratelim.c:50-71 | a first limit, or the old one clipped to the new maximum |
| RateLimit.Bufferevent.GetRlimMax | frontend/ios/Pods/libevent/bufferevent_ratelim.c:198-258 | what may move: the updated limit or zero, or without a configuration the largest transfer; the suspension invariant survives if and only if no refill overflows |
| RateLimit.Bufferevent.DecrementReadBuckets | frontend/ios/Pods/libevent/bufferevent_ratelim.c:273-308 | reading is suspended if and only if nothing is left; the timer that writing needs is kept |
| RateLimit.Bufferevent.DecrementWriteBuckets | frontend/ios/Pods/libevent/bufferevent_ratelim.c:311-346 | the same for writing |
| RateLimit.Bufferevent.DecrementReadLimit | frontend/ios/Pods/libevent/bufferevent_ratelim.c:969-993 | only a change of sign suspends or resumes reading; the timer is pending if and only if a direction is suspended |
| RateLimit.Bufferevent.DecrementWriteLimit | frontend/ios/Pods/libevent/bufferevent_ratelim.c:996-1022 | the same for writing |
| RateLimit.Bufferevent.RefillCallback | frontend/ios/Pods/libevent/bufferevent_ratelim.c:394-439 | each direction resumes if and only if its bucket is positive again, and the timer is set again for the others |
| RateLimit.Bufferevent.SetRateLimit | frontend/ios/Pods/libevent/bufferevent_ratelim.c:560-635 | every new configuration leaves exhausted directions suspended and the timer pending for them; the same one changes nothing; it fails just for want of memory |
| TagCodec.IntRoundTrips | frontend/ios/Pods/libevent/event_tagging.c:121-142 | decoding an encoded integer gives it back with its length, whatever follows: 32 bits in at most 5 bytes, 64 bits in at most 9 |
| TagCodec.EncodeIntInternal | frontend/ios/Pods/libevent/event_tagging.c:121-142 | the loop over nibbles writes exactly the encoding of the number |
| TagCodec.DecodeNibbles | frontend/ios/Pods/libevent/event_tagging.c:342-349 | the decoding loop gives the number that the nibbles stand for, without wrap-around |
| TagCodec.TagRoundTrip | frontend/ios/Pods/libevent/event_tagging.c:178-246 | decoding an encoded tag gives it back with its length, at most 5 bytes, whatever follows |
| TagCodec.TagExample | frontend/ios/Pods/libevent/event_tagging.c:80-85 | tag 0x166 is encoded with the low bits first, unlike the comment |
| TagCodec.IntExample | frontend/ios/Pods/libevent/event_tagging.c:89-93 | nibbles are encoded with the least significant first, unlike the comment |
| TagCodec.RecordRoundTrip | frontend/ios/Pods/libevent/event_tagging.c:261-267 | the header of an encoded record is decoded to its tag and length, and the payload follows |
| Tagging.TagBytes | frontend/ios/Pods/libevent/event_tagging.c:178-192 | the loop over 7-bit groups writes exactly the encoding of the tag |
| Tagging.EncodeTag | frontend/ios/Pods/libevent/event_tagging.c:178-198 | appends the encoded tag, or silently nothing when the buffer does not take it; when it does is exact |
| Tagging.EncodeInt | frontend/ios/Pods/libevent/event_tagging.c:157-162 | appends the encoded integer, or silently nothing when the buffer does not take it; when it does is exact |
| Tagging.DecodeTagInternal | frontend/ios/Pods/libevent/event_tagging.c:201-246 | finds the tag at the front and drains exactly its bytes unless the start is frozen, or fails and changes no byte; it fails exactly without a tag or for want of memory; when it loads a sixth byte, and when that lies behind the first chunk's data or outside the chunk, are if-and-only-ifs |
| Tagging.SixthHasNoTag | frontend/ios/Pods/libevent/event_tagging.c:218-224 | where the sixth byte is loaded there is no tag |
| Tagging.SixthByteExample | frontend/ios/Pods/libevent/event_tagging.c:218-224 | a run: two references added, after which that byte lies outside the first chunk |
| Tagging.DecodeIntInternal | frontend/ios/Pods/libevent/event_tagging.c:319-370 | finds the integer at the offset and changes no byte, frozen or not; fails exactly when it is too long or cut off, the length does not fit ev_ssize_t, or memory is missing at offset zero; missing memory at another offset means a load from the null pointer |
| Tagging.DecodeInt | frontend/ios/Pods/libevent/event_tagging.c:380-387 | finds the integer at the front and drains exactly its bytes unless the start is frozen, or fails and changes no byte, also for want of memory |
| Tagging.UnmarshalHeader | frontend/ios/Pods/libevent/event_tagging.c:442-455 | drains tag and length, even when it then fails; fails when memory is missing or the payload is not all there; what is left after each failure; with a frozen start the length is read where the tag was |
| Tagging.HeaderInIs | frontend/ios/Pods/libevent/event_tagging.c:442-455 | what is found is the header of the record if the start is not frozen, and otherwise a length made of the tag's own bytes |
| Tagging.PeekLength | frontend/ios/Pods/libevent/event_tagging.c:406-421 | the size of the next record modulo 2^32, without draining; it loads from the null pointer if and only if memory for the length is missing |
| Tagging.NullPointerExample | frontend/ios/Pods/libevent/event_tagging.c:327-341 | a run: two references added, after which looking at the length without memory does just that |
| Tagging.PeekedLength | frontend/ios/Pods/libevent/event_tagging.c:406-466 | for an encoded record that is its whole size, and consuming it leaves exactly what follows |
| Tagging.Consume | frontend/ios/Pods/libevent/event_tagging.c:458-466 | drains the next record unless the start is frozen; a length that is no int drains all, or nothing when it converts to -1; what is left after each failure |
| Tagging.Unmarshal | frontend/ios/Pods/libevent/event_tagging.c:471-484 | moves exactly the payload of the next record; it fails if and only if there is no header or no memory for it, the payload is not all there, its length is no int, or the other buffer does not take it; else it copies from a null pointer if and only if memory to gather the payload is missing |
| Tagging.MovePayload | frontend/ios/Pods/libevent/event_tagging.c:479-483 | the end of that, on any two buffers |
| Tagging.Marshal | frontend/ios/Pods/libevent/event_tagging.c:261-267 | appends the parts of the encoded record, each if and only if the buffer then takes it |
| Tagging.MarshalledFits | frontend/ios/Pods/libevent/event_tagging.c:261-267 | that is the encoded record if and only if every part is taken; with memory, if and only if the end is not frozen and all of it fits |
| Tagging.MarshalAll | frontend/ios/Pods/libevent/event_tagging.c:261-267 | the same for each record of a list |
| Tagging.AllFit | frontend/ios/Pods/libevent/event_tagging.c:261-267 | with memory that is the encodings of all of them when they fit together; it is nothing when the end is frozen |
| Tagging.UnmarshalAll | frontend/ios/Pods/libevent/event_tagging.c:471-484 | gives the list back in order and leaves exactly the bytes that follow it |

## Left out

- Pinned, multicast and file-segment chains, locks, callbacks, sockets, `readv`, `sendfile` and `mmap` in `buffer.c`.
- Next pointers: a list of chunks is a sequence in a field, and a chunk is a value with an address that stands for its
  identity; two names for the same memory are not modelled.
- The total length of a buffer is a natural number; the checks of the code against `EV_SIZE_MAX` are modelled.
- One flag says whether malloc succeeds in a call that may call it twice.
- AddReference: does not model the cleanup function, and takes a length above the largest chunk, which no object in C
  has, to be excluded.
- NameToLabels: takes the name and its length to be those of a C string; a name with an empty label inside is written but
  nothing is said about reading it.
- WriteNames: takes the room for all names to be below 0x4000; beyond, `PointerReads` says what is read.
- Timers, transmission (which requests were sent is a parameter), probes, search domains, randomised case, hosts files
  and getaddrinfo in `evdns.c`; circular lists are sequences, the ids for the pump are given, distinct and free.
- Threads, condition waits, signals' call counts, `event_persist_closure`, deferred callbacks and changes of priority in
  `event.c`; the minimum heap is a set with a smallest element, its sizes are natural numbers, and user callbacks are
  further steps of a run.
- InsertTimeout: has the number of common timeouts fixed, and a time as microseconds with the number of its common timeout
  beside it instead of in the high bits of `tv_usec`.
- OpIsRight: what the kernel watches does not include the edge-triggered flag, which is kept in the changes; how a backend
  passes it on is in `epoll.c`, which is not part of this model.
- Signals in `evmap.c`, the debug check for edge-triggered events, and the growth of the array of descriptors, which is a
  map here; the 512 rows of the epoll table, for which their pseudocode stands, with all three kinds.
- `HT_REPLACE`, `HT_FOREACH_FN` and `HT_NEXT_RMV`; the number of entries is a natural number.
- Insert: nothing is said of the table after a division by zero or a read past the sizes, where C says nothing either.
- Del: the result of the maps is any of those they return; `IoDel` in `Evmap.dfy` says which.
- UnmarshalAll: takes allocation to succeed; so does `Flat`, which reads the result.
- IoDel: after a failing backend, only the descriptors that `Agrees` holds for go on as before; what a backend makes of a
  later change for the other one is in `epoll.c`, which is not part of this model.
- Groups of bufferevents and their locks; the arming of the refill timer succeeds.
- DecrementReadLimit: asks that the difference fits `ev_ssize_t`, as signed arithmetic in C does; so do the other
  decrements.
- Everything outside libevent: the application's routes, screens and store are thin.
