# Verified models of MTC's network and lock-table code

MTC is a multi-node database prototype. This project models, in Dafny 4.11, the parts of
its components that carry the hardest invariants, and proves what those parts promise:

- **evbuffer** (`Evbuffer.dfy`, `ChainMemory.dfy`, `EvbufferRun.dfy`, `EvbufferSearch.dfy`): a
  list of memory blocks with cached length, last chain and last-data slot behaves as one byte
  string under appending, prepending, draining, moving, pulling up, expanding and searching.
- **The tagged wire format** (`Tagging.dfy`, `TaggedStream.dfy`): integers, tags and streams of
  records round trip.
- **DNS names** (`DnsName.dfy`, `DnsWire.dfy`): the label printer with its compression table and
  the pointer-following parser of sections 3.1 and 4.1.4 of RFC 1035 are inverses.
- **The DNS request scheduler** (`DnsState.dfy`, `DnsScheduler.dfy`): hashed queues, waiting queue,
  ring of servers and all counters agree over every run, whatever the network does.
- **uthash** (`Links.dfy`, `HashChains.dfy`, `Uthash.dfy`, `MergeSort.dfy`, `UthashSort.dfy`): bucket
  chains and insertion-order list hold the same items through expansions, and the in-place merge
  sort is a sorted, stable permutation. Links are pointers in an explicit store, so that aliasing
  between chains and list is part of the model.
- **Event registration** (`Evmap.dfy`, `EpollTable.dfy`): coalescing registrations into one change
  per descriptor and mapping it through a 512-entry table preserves what is watched.
- **Rate limiting** (`TokenBucket.dfy`, `Bufferevent.dfy`): the bucket arithmetic, and a suspend and
  refill state machine that never loses a wake-up.
- **The page lock table** (`PageLock.dfy`): when mutual exclusion holds, and when it does not.

State that the source updates in place is a class whose methods change its fields; loops of the
source are loops here; each method is proved against byte strings, maps or functions on values,
and the properties of runs are proved over arbitrary sequences of operations.

`Wrappers.dfy` and `Sequences.dfy` hold what several of them share. `dafny verify dfyconfig.toml` checks everything.

Where the code does less than its documentation or its name suggests, the model follows the code
and says exactly when the promise holds:

- The comment in `lock_common.h` has every write request raise the version; a write lock that
  creates the table entry leaves it at 0 (`PageLock.VersionCountsWrites`).
- Marking a page UNLOCK while other readers hold it opens it to a writer
  (`PageLock.WriterBesideReader`). That mutual exclusion of read and write locks holds at every moment
  of a run, whatever is asked next, is the case exactly when no unlock comes while someone else holds
  one (`PageLock.ExclusionIffRightful`). Refused requests are never queued, so the hand-off to a
  waiter is unreachable.
- An UNLOCK of a page nobody has asked for is answered as a granted lock and makes its asker a holder
  (`PageLock.UnlockOfUnknownPage`).
- `evbuffer_prepend` onto an immutable first chain leaves the last-data slot wrong when nothing is
  prepended or when that chain is empty, as a sole empty reference is
  (`Evbuffer.PrependToEmptyReference`); no other modelled operation breaks slot or chains.
- `evbuffer_add_reference`, `evbuffer_add_buffer` and `evbuffer_remove_buffer` sum lengths unchecked: the
  stored length wraps, exactly when the bytes do not fit a `size_t`.
- `evbuffer_search_range` reports an empty or oversized pattern as found at the start.
- `evbuffer_remove_buffer` does not look at the result of the append it ends with, which reads that
  stored length: it is exact if and only if everything is moved, the prefix ends with a chain, the
  destination's new length fits, or the whole chains alone have already wrapped it
  (`Evbuffer.MoveIsExact`); its result is cut to an `int`.
- `evtag_decode_tag` can read one byte more than it has made contiguous (`TaggedStream.ReadTag` says when).
- `dnsname_to_labels` does not count the terminating zero when it checks for room, with and without a
  compression table (`DnsName.OverrunsExactly`).
- A record of 2^31 bytes or more is marshalled but not unmarshalled (`TaggedStream.RecordRoundTrip`).
- A bucket above its maximum, which refunds allow, is not cut to it by an update, but grows or wraps
  to below it, unless the ticks carry it once around 64 bits (`TokenBucket.RefilledIsMin`).
- An allowance that is a positive multiple of 2^32 is cut to 0 by a cast, and the read of nothing is
  taken for the end of the file (`Bufferevent.AskedAllowed`).

## Model

| member | source | states |
|---|---|---|
| `Evbuffer.EvBuffer.constructor` | components/multi_net_io/libevent/buffer.c:361-374 | a new buffer is valid and holds no bytes |
| `Evbuffer.EvBuffer.ChainNew` | components/multi_net_io/libevent/buffer.c:156-192 | a fresh chain is empty and has room for the size asked; its block, header included, is the least doubling of 1024 that holds it, or exactly the size when huge |
| `Evbuffer.EvBuffer.FreeTrailingEmptyChains` | components/multi_net_io/libevent/buffer.c:290-302 | every chain behind the last one with data goes, and no byte is lost |
| `Evbuffer.EvBuffer.ChainInsert` | components/multi_net_io/libevent/buffer.c:308-326 | the chain's bytes are appended after trailing empty chains are dropped and the length is summed as a size_t; the list (length modulo 2^64, `last` and last-data slot, no empty chain before it) stays right if and only if the chain itself is sound, and the length exact if and only if it fits |
| `Evbuffer.EvBuffer.Add` | components/multi_net_io/libevent/buffer.c:1723-1817 | appends the bytes, in the last data chain, after realigning it or in a new chain; refuses, changing nothing, exactly when the end is frozen or the length as stored, wrapped or not, would pass SIZE_MAX; a valid buffer stays valid |
| `Evbuffer.EvBuffer.AddInNewChain` | components/multi_net_io/libevent/buffer.c:1785-1809 | what fits goes into the last chain and the rest into a new one, so that the bytes are appended |
| `Evbuffer.EvBuffer.AddReference` | components/multi_net_io/libevent/buffer.c:2908-2945 | appends the caller's bytes, none included; refuses exactly when the end is frozen; the unchecked sum keeps the buffer valid if and only if the new length fits a size_t, and the rest of the list right in any case |
| `Evbuffer.EvBuffer.Prepend` | components/multi_net_io/libevent/buffer.c:1820-1899 | puts the bytes in front, refusing exactly when the start is frozen or the length would pass SIZE_MAX; the list invariant survives if and only if it is not the case that the first chain is immutable and either nothing is prepended or that chain is empty |
| `Evbuffer.EvBuffer.PrependChain` | components/multi_net_io/libevent/buffer.c:1876-1891 | a new first chain filled from its end; the list stays valid if and only if something is put into it and the chain behind it carries data |
| `Evbuffer.EvBuffer.Drain` | components/multi_net_io/libevent/buffer.c:1096-1161 | forgets exactly the first bytes (all, when more are asked for), or refuses exactly when the start is frozen and there is something to drain |
| `Evbuffer.EvBuffer.DrainSome` | components/multi_net_io/libevent/buffer.c:1122-1151 | frees whole chains and shortens the next one; re-establishes the last-data slot |
| `Evbuffer.EvBuffer.ZeroChain` | components/multi_net_io/libevent/buffer.c:795-802 | an empty list is a valid buffer |
| `Evbuffer.EvBuffer.AddBuffer` | components/multi_net_io/libevent/buffer.c:961-1004 | the destination gets the source's bytes at its end and the source is left empty and valid; the destination stays valid if and only if its new length fits a size_t, and else has a right list with a wrapped length; nothing changes when refused or for one and the same buffer |
| `Evbuffer.EvBuffer.JoinChains` | components/multi_net_io/libevent/buffer.c:870-900 | taking over the other list, or appending it behind the chains with data: bytes, slot, last chain and the sum of the lengths as a size_t |
| `Evbuffer.EvBuffer.AdvanceLastWithData` | components/multi_net_io/libevent/buffer.c:703-716 | the slot moves over chains with data and stops where the next chain is empty or missing |
| `Evbuffer.EvBuffer.RemoveBuffer` | components/multi_net_io/libevent/buffer.c:1255-1342 | the source loses exactly the first min(n, length) bytes; the destination gains all of them, or exactly those of the chains relinked whole when the final copy is refused at the stored, possibly wrapped, length; it stays valid if and only if what it then holds fits; the result is the number as a C int |
| `Evbuffer.EvBuffer.CountChains` | components/multi_net_io/libevent/buffer.c:1287-1299 | counts the chains that can be relinked whole, and their bytes are the whole-chain part of the prefix; the last data chain is never among them, which discharges the assertion in the loop |
| `Evbuffer.EvBuffer.TakeChains` | components/multi_net_io/libevent/buffer.c:1301-1318 | relinks chains with data behind those of the destination, advances its slot and sums the length as a size_t |
| `Evbuffer.EvBuffer.MovePrefix` | components/multi_net_io/libevent/buffer.c:1287-1331 | the same for a proper prefix: relinking whole chains, then a copy that may be refused |
| `Evbuffer.EvBuffer.TrimFront` | components/multi_net_io/libevent/buffer.c:1320-1331 | what is left in the source is the byte string without the prefix, with exact caches |
| `Evbuffer.EvBuffer.Pullup` | components/multi_net_io/libevent/buffer.c:1345-1454 | the byte string is unchanged and the requested prefix lies in the first chain; not found exactly when it is empty or longer than the buffer |
| `Evbuffer.EvBuffer.PullupMore` | components/multi_net_io/libevent/buffer.c:1394-1449 | in every case of what was freed, `last` and the last-data slot are right again |
| `Evbuffer.EvBuffer.Gather` | components/multi_net_io/libevent/buffer.c:1414-1434 | the bytes gathered are the next ones of the buffer, and the two flags say exactly which cached chains were freed |
| `Evbuffer.EvBuffer.ExpandSinglechain` | components/multi_net_io/libevent/buffer.c:1928-2035 | the byte string is unchanged and one chain at the end of the data has the room asked for |
| `Evbuffer.EvBuffer.CountRoom` | components/multi_net_io/libevent/buffer.c:2060-2085 | the room and number of chains counted are those of the chains scanned; empty chains are realigned without changing a byte |
| `Evbuffer.EvBuffer.ExpandFast` | components/multi_net_io/libevent/buffer.c:2040-2147 | the byte string is unchanged and at most n trailing chains have the room asked for together |
| `Evbuffer.EvBuffer.OneMoreChain` | components/multi_net_io/libevent/buffer.c:2090-2104 | one chain more gives the missing room |
| `Evbuffer.EvBuffer.ReplaceEmptyChains` | components/multi_net_io/libevent/buffer.c:2105-2146 | one new chain in place of all empty ones gives the room; discharges the assertions about the chains freed |
| `Evbuffer.DropFront` | components/multi_net_io/libevent/buffer.c:1125-1151 | cutting bytes off the front of a list: which chains stay, their shape, and that exactly the prefix is lost |
| `Evbuffer.JoinLists` | components/multi_net_io/libevent/buffer.c:884-900 | joining two lists joins their byte strings and keeps the shape |
| `Evbuffer.PushFirst` | components/multi_net_io/libevent/buffer.c:1876-1891 | a chain put in front with the last-data slot moved on keeps the shape if and only if it and the old first chain carry data |
| `Evbuffer.PrependToEmptyReference` | components/multi_net_io/libevent/buffer.c:1876-1891 | a non-empty prepend onto a sole empty reference leaves the last-data slot at the empty chain, which is wrong, while the slot before it would be right |
| `Evbuffer.MoveIsExact` | components/multi_net_io/libevent/buffer.c:1255-1342 | the destination of evbuffer_remove_buffer gets exactly the prefix if and only if it is the whole source, or ends with a chain, or fits a size_t, or its whole chains alone already do not fit |
| `Evbuffer.MoveFits` | components/multi_net_io/libevent/buffer.c:1301-1331 | the destination's length still fits afterwards if and only if the prefix fits, or is not everything and its whole chains fit |
| `Evbuffer.MoveWraps` | components/multi_net_io/libevent/buffer.c:1317-1323 | a concrete case: relinking one byte into a destination of SIZE_MAX bytes carries its length around to 0, so the copy of the next byte is accepted and both arrive |
| `Evbuffer.MoveLosesAByte` | components/multi_net_io/libevent/buffer.c:1320-1331 | a concrete failure: a destination of SIZE_MAX bytes asked to take the first of two bytes of a chain gets nothing, and the byte is gone |
| `Evbuffer.PullupShape` | components/multi_net_io/libevent/buffer.c:1430-1447 | the list a pullup leaves is valid and spells the same bytes |
| `EvbufferRun.Run` | components/multi_net_io/libevent/evbuffer-internal.h:86-99 | over every run of add, add_reference, prepend, drain, add_buffer, remove_buffer, pullup and both expansions on two buffers, each chain list is a plain byte string, with exact total length, last chain and last-data slot; references are tracked per buffer and forgotten when it is emptied |
| `EvbufferRun.Perform` | components/multi_net_io/libevent/buffer.c:961-1004 | one operation does to the two byte strings what its effect on plain strings says, refusals at SIZE_MAX included, and to the references of both buffers what is tracked of them |
| `EvbufferRun.GiveTo` | components/multi_net_io/libevent/buffer.c:1255-1342 | the same for evbuffer_remove_buffer |
| `EvbufferRun.FirstChain` | components/multi_net_io/libevent/buffer.c:1838-1874 | the first chain of a buffer is immutable only if references are about, and empty besides only if empty references are about and the buffer holds no byte |
| `ChainMemory.ChainBlock.constructor` | components/multi_net_io/libevent/buffer.c:156-192 | a new block is an empty chain of its size |
| `ChainMemory.ChainBlock.Append` | components/multi_net_io/libevent/buffer.c:1763-1765 | the memcpy appends to the stored bytes of the chain and changes nothing else about it |
| `ChainMemory.ChainBlock.PutInFront` | components/multi_net_io/libevent/buffer.c:1856-1859 | the memcpy in front of the stored bytes prepends them |
| `ChainMemory.ChainBlock.Align` | components/multi_net_io/libevent/buffer.c:1903-1909 | the overlapping memmove keeps the stored bytes and zeroes the misalignment |
| `ChainMemory.ChainBlock.Forget` | components/multi_net_io/libevent/buffer.c:1150-1151 | moving the start forgets exactly the first bytes |
| `EvbufferSearch.PtrSet` | components/multi_net_io/libevent/buffer.c:2610-2659 | the pointer designates the position asked for, or fails exactly when it lies beyond the end, overflows or starts from a not-found pointer |
| `EvbufferSearch.PtrSubtract` | components/multi_net_io/libevent/buffer.c:2590-2607 | the pointer designates the position that many bytes earlier; fails, unchanged, exactly when there are not that many |
| `EvbufferSearch.PtrMatches` | components/multi_net_io/libevent/buffer.c:2666-2699 | true if and only if the bytes occur at the pointer, across chain boundaries |
| `EvbufferSearch.SearchRange` | components/multi_net_io/libevent/buffer.c:2708-2769 | the least position at or after start where a non-empty pattern occurs within end, or -1; a pattern of length 0 or above SSIZE_MAX is reported found at start |
| `EvbufferSearch.FindEolChar` | components/multi_net_io/libevent/buffer.c:1489-1513 | the first CR or LF of a block, by chunks of 128 |
| `EvbufferSearch.FindByte` | components/multi_net_io/libevent/buffer.c:1467-1535 | the first such byte from the pointer on, or -1 |
| `EvbufferSearch.SpanEol` | components/multi_net_io/libevent/buffer.c:1538-1574 | the length of the run of CR and LF |
| `EvbufferSearch.SearchEol` | components/multi_net_io/libevent/buffer.c:1590-1677 | the first line end of the style and its length; -1 exactly when there is none |
| `EvbufferSearch.GetChr` | components/multi_net_io/libevent/buffer.c:1578-1587 | the byte of the byte string at the pointer |
| `EvbufferSearch.CopyoutFrom` | components/multi_net_io/libevent/buffer.c:1185-1249 | copies exactly the bytes from the position on, up to the length, with each error case |
| `EvbufferSearch.CopyChains` | components/multi_net_io/libevent/buffer.c:1224-1243 | copying chain by chain gives a stretch of the byte string |
| `EvbufferSearch.Remove` | components/multi_net_io/libevent/buffer.c:1165-1176 | returns and removes exactly the first bytes |
| `EvbufferSearch.Readln` | components/multi_net_io/libevent/buffer.c:1680-1716 | old contents are line, terminator and remainder, with no earlier terminator of that style; no line, and no change, if and only if the start is frozen or there is no terminator |
| `EvbufferSearch.TakeLine` | components/multi_net_io/libevent/buffer.c:1697-1708 | the line is removed and the terminator drained |
| `Tagging.IntRoundTrip` | components/multi_net_io/libevent/event_tagging.c:117-150 | decoding an encoded integer followed by anything gives it back, with its length |
| `Tagging.DigitsBound` | components/multi_net_io/libevent/event_tagging.c:117-150 | 32-bit integers have at most 8 digits and 64-bit integers at most 16, so both round trip |
| `Tagging.TagRoundTrip` | components/multi_net_io/libevent/event_tagging.c:174-242 | every 32-bit tag is decoded to itself, whatever follows |
| `Tagging.EncodeIntInternal` | components/multi_net_io/libevent/event_tagging.c:117-150 | the nibble loop writes exactly the encoding of the number into the array and returns its length |
| `TaggedStream.RecordRoundTrip` | components/multi_net_io/libevent/event_tagging.c:257-263 | a marshalled record is read back if and only if its payload is shorter than 2^31 bytes |
| `TaggedStream.StreamRoundTrip` | components/multi_net_io/libevent/event_tagging.c:467-480 | every concatenation of marshalled records unmarshals to the same list |
| `TaggedStream.MarshalAll` | components/multi_net_io/libevent/event_tagging.c:257-263 | a list of records marshalled into a buffer that has room for all of it appends its encoding |
| `TaggedStream.UnmarshalOne` | components/multi_net_io/libevent/event_tagging.c:467-480 | one record taken off the front of a buffer, tag and payload, or none exactly when there is none |
| `TaggedStream.UnmarshalAll` | components/multi_net_io/libevent/event_tagging.c:467-480 | unmarshalling until a buffer is empty gives the records its bytes spell, or fails exactly when they spell none |
| `TaggedStream.SendAndReceive` | components/multi_net_io/libevent/event_tagging.c:467-480 | every list of records marshalled into a buffer is unmarshalled from it to the same list, if it fits and no payload has 2^31 bytes |
| `TaggedStream.EncodeTag` | components/multi_net_io/libevent/event_tagging.c:174-194 | offers the encoding of the tag to the buffer, which takes it whole unless frozen or full, and returns its length either way |
| `TaggedStream.EncodeInt` | components/multi_net_io/libevent/event_tagging.c:153-165 | offers the encoding of the integer in the same way |
| `TaggedStream.Marshal` | components/multi_net_io/libevent/event_tagging.c:257-263 | offers tag, length and payload one after the other, each refusal ignored |
| `TaggedStream.MarshalledWhole` | components/multi_net_io/libevent/event_tagging.c:257-263 | the buffer gains exactly the encoded record if and only if its end is not frozen and the whole record fits |
| `TaggedStream.DecodeTagInternal` | components/multi_net_io/libevent/event_tagging.c:197-242 | the tag at the front and its length, drained if asked and not frozen; -1 exactly when there is none |
| `TaggedStream.ReadTag` | components/multi_net_io/libevent/event_tagging.c:214-233 | the loop over the bytes computes the decoding; it reads a sixth byte, beyond those made contiguous, if and only if there are more than five, the first five all continue and the fifth is not too large |
| `TaggedStream.DecodeIntInternal` | components/multi_net_io/libevent/event_tagging.c:315-373 | the integer at the offset, without draining; -1 exactly when none is there |
| `TaggedStream.ReadNibbles` | components/multi_net_io/libevent/event_tagging.c:338-347 | reading nibbles from the last to the first computes the number |
| `TaggedStream.DecodeInt` | components/multi_net_io/libevent/event_tagging.c:376-393 | the integer at the front is drained unless frozen; nothing changes when there is none |
| `TaggedStream.UnmarshalHeader` | components/multi_net_io/libevent/event_tagging.c:438-451 | drains tag and length, as far as the buffer lets itself be drained, and returns the length as a C int |
| `TaggedStream.UnfrozenHeader` | components/multi_net_io/libevent/event_tagging.c:438-451 | on a buffer that can be drained this is the header of the next record and what follows it |
| `TaggedStream.Unmarshal` | components/multi_net_io/libevent/event_tagging.c:467-480 | result, source and destination for every pair of buffers, frozen and full ones included |
| `TaggedStream.UnmarshalledRecord` | components/multi_net_io/libevent/event_tagging.c:467-480 | on buffers that are not frozen and with room it moves the next payload to the destination and consumes its record, or says -1 exactly when there is no record of less than 2^31 bytes |
| `TaggedStream.PeekLength` | components/multi_net_io/libevent/event_tagging.c:402-417 | header size plus payload length of the next record modulo 2^32, of frozen buffers too; the buffer is unchanged |
| `TaggedStream.Consume` | components/multi_net_io/libevent/event_tagging.c:454-462 | drains what Consumed says, and nothing of a frozen buffer |
| `TaggedStream.PeekTellsConsumed` | components/multi_net_io/libevent/event_tagging.c:402-462 | evtag_peek_length equals the bytes evtag_consume drains if and only if the length is below 2^31 or the record ends the buffer |
| `DnsName.PointerReaches` | components/multi_net_io/libevent/evdns.c:1626-1629 | a compression pointer designates the place meant if and only if it is below 0x4000 |
| `DnsName.EncodedLength` | components/multi_net_io/libevent/evdns.c:1600-1663 | for both modes: a name of which no suffix is in the table is written if and only if its labels are short and one byte more than it has is left, and how long it then is; no name passes the buffer's end by more than one byte, and one does exactly when it is written in full, ends there and not in a dot |
| `DnsName.OverrunsExactly` | components/multi_net_io/libevent/evdns.c:1656-1660 | the unchecked terminator is written beyond the buffer if and only if a condition on name, table, position and buffer length holds that can be evaluated beforehand |
| `DnsName.OverrunAtTwo` | components/multi_net_io/libevent/evdns.c:1656-1660 | a concrete overrun in both modes: the one-byte name a into a buffer of two bytes writes a third |
| `DnsName.EncodeSpells` | components/multi_net_io/libevent/evdns.c:1600-1663 | what is written spells the name, and every compression entry made points to a place that spells its suffix |
| `DnsName.ParseSpelled` | components/multi_net_io/libevent/evdns.c:960-1013 | the parser returns what a message spells, with enough jumps because pointers lead ever further back |
| `DnsName.ClippedIsName` | components/multi_net_io/libevent/evdns.c:1624-1660 | what is read back equals the name if and only if it has no empty label or is empty |
| `DnsName.MessageRoundTrip` | components/multi_net_io/libevent/evdns.c:1529-1663 | every name of a message built with a shared compression table within 0x4000 bytes is parsed back from its start offset, to exactly that name and its end offset |
| `DnsWire.GetPos` | components/multi_net_io/libevent/evdns.c:1560-1568 | the loop finds the table position of the label, or -1 |
| `DnsWire.DnsnameToLabels` | components/multi_net_io/libevent/evdns.c:1600-1663 | the in-place encoder writes exactly the encoding behind the start, returns its end or the same error code, and touches no other byte; it needs a byte beyond the buffer length exactly when the terminator overruns it |
| `DnsWire.Terminate` | components/multi_net_io/libevent/evdns.c:1656-1660 | a zero byte is added exactly when the last label was not empty |
| `DnsWire.NameParse` | components/multi_net_io/libevent/evdns.c:960-1013 | terminates on every byte string, by jumps left and then bytes left, and computes the parse |
| `DnsWire.ParseBounds` | components/multi_net_io/libevent/evdns.c:960-1013 | on success the name is shorter than the output and the end index lies within the packet |
| `DnsState.CountersAgree` | components/multi_net_io/libevent/evdns.c:305-330 | under the invariant the inflight count is the length of all hashed queues together and the sum of the servers' counts, the waiting count the queue length, the good count the number of up servers in the ring |
| `DnsState.LaunchNew` | components/multi_net_io/libevent/evdns.c:2823-2841 | a new request put into flight keeps the invariant |
| `DnsState.LaunchWaiting` | components/multi_net_io/libevent/evdns.c:752-766 | moving the head of the waiting queue into flight keeps the invariant |
| `DnsState.Park` | components/multi_net_io/libevent/evdns.c:2837-2840 | a request put into the waiting queue keeps the invariant |
| `DnsState.Reassign` | components/multi_net_io/libevent/evdns.c:544-553 | giving a request in flight to another server keeps the invariant, and the server left counted at least one |
| `DnsState.Drop` | components/multi_net_io/libevent/evdns.c:648-665 | taking a request out of its queue keeps the invariant |
| `DnsState.RetouchServer` | components/multi_net_io/libevent/evdns.c:575-582 | marking a server up or down and counting it keeps the invariant; an up server means a positive count |
| `DnsState.Join` | components/multi_net_io/libevent/evdns.c:2541-2552 | a new server behind the ring's head, counted as good, keeps the invariant |
| `DnsState.RemovedKeeps` | components/multi_net_io/libevent/evdns.c:2681-2717 | unlinking from a circular list removes exactly that request |
| `DnsState.SomeIdIsFree` | components/multi_net_io/libevent/evdns.c:1317-1329 | there is a free transaction id to draw if and only if fewer than 65535 requests are in flight |
| `DnsState.MaximumForIds` | components/multi_net_io/libevent/evdns.c:1317-1329 | in every state with fewer requests in flight than the configured maximum there is an id to draw, if and only if that maximum is at most 65535; probes are sent without regard to it |
| `DnsScheduler.EvdnsBase.constructor` | components/multi_net_io/libevent/evdns.c:3385-3414 | an empty base satisfies the invariant |
| `DnsScheduler.EvdnsBase.NameserverPick` | components/multi_net_io/libevent/evdns.c:1334-1367 | picks a server whenever there is one, and the first up server from the ring's head whenever one is up; leaves the ring just behind it; the all-down assertion cannot fail |
| `DnsScheduler.EvdnsBase.RequestSwapNs` | components/multi_net_io/libevent/evdns.c:544-553 | the request goes to that server; both servers' counts follow; the assertion that the old count is positive holds |
| `DnsScheduler.EvdnsBase.NameserverFailed` | components/multi_net_io/libevent/evdns.c:557-615 | exactly that server goes down and the good count with it; while another is up no unsent request stays with it; no other request is touched |
| `DnsScheduler.EvdnsBase.MoveUnsent` | components/multi_net_io/libevent/evdns.c:602-614 | the walk over all buckets meets every request in flight and moves the unsent ones, and no other |
| `DnsScheduler.EvdnsBase.ClearBucket` | components/multi_net_io/libevent/evdns.c:603-613 | after the walk over one bucket none of its unsent requests is with the failed server |
| `DnsScheduler.EvdnsBase.RequestTransmit` | components/multi_net_io/libevent/evdns.c:2198-2286 | whatever the send does, the same requests are in the same queues; the id assertion holds |
| `DnsScheduler.EvdnsBase.TransmitAll` | components/multi_net_io/libevent/evdns.c:2344-2366 | sending everything marked keeps all queues |
| `DnsScheduler.EvdnsBase.RequestFindFromTransId` | components/multi_net_io/libevent/evdns.c:468-483 | the walk over one bucket finds the request in flight with that id if and only if there is one; ids are drawn against it |
| `DnsScheduler.EvdnsBase.TransactionIdPick` | components/multi_net_io/libevent/evdns.c:1317-1329 | the draws end with an id that is not 0xffff and that the walk over its bucket has not found in flight |
| `DnsScheduler.EvdnsBase.PumpWaitingQueue` | components/multi_net_io/libevent/evdns.c:742-770 | promotes from the head of the waiting queue; afterwards it is full, nothing waits, or there is no server |
| `DnsScheduler.EvdnsBase.PumpOne` | components/multi_net_io/libevent/evdns.c:752-768 | the head of the queue goes into flight exactly when there is a server |
| `DnsScheduler.EvdnsBase.SendAll` | components/multi_net_io/libevent/evdns.c:766-768 | sending the promoted request and everything marked keeps requests, servers and probes |
| `DnsScheduler.EvdnsBase.Resolve` | components/multi_net_io/libevent/evdns.c:2746-2841 | the new request is in flight exactly when there is room and a server, else last in the waiting queue |
| `DnsScheduler.EvdnsBase.Submit` | components/multi_net_io/libevent/evdns.c:2823-2841 | inserted into the bucket of its id or the tail of the waiting queue, and counted |
| `DnsScheduler.EvdnsBase.RequestFinished` | components/multi_net_io/libevent/evdns.c:648-706 | exactly that request leaves, and the room is used |
| `DnsScheduler.EvdnsBase.Cancel` | components/multi_net_io/libevent/evdns.c:2844-2877 | exactly that request leaves; nothing happens when it is over already |
| `DnsScheduler.EvdnsBase.NameserverUp` | components/multi_net_io/libevent/evdns.c:617-636 | the server is up and its failures forgotten; its outstanding probe, and no other request, is cancelled; the unconditional increment is right because the server stays down through the cancelling, with all its pumping and sending |
| `DnsScheduler.EvdnsBase.SendProbe` | components/multi_net_io/libevent/evdns.c:2314-2339 | the probe is forced into flight, room or not, and remembered as the server's, and no other server's probe changes |
| `DnsScheduler.EvdnsBase.ProbeCallback` | components/multi_net_io/libevent/evdns.c:2288-2312 | the server is up exactly when it was or the probe succeeded; no request is lost |
| `DnsScheduler.EvdnsBase.TimeoutCallback` | components/multi_net_io/libevent/evdns.c:2160-2196 | the request is over exactly when its retransmissions are used up; servers keep addresses and probes |
| `DnsScheduler.EvdnsBase.Retransmit` | components/multi_net_io/libevent/evdns.c:2180-2193 | another server, another send, and the count of timeouts, with all queues kept |
| `DnsScheduler.EvdnsBase.RequestReissue` | components/multi_net_io/libevent/evdns.c:714-735 | 0 if and only if it went to another server, and then it is marked to be sent afresh; always 0 when its server is down and another is up |
| `DnsScheduler.EvdnsBase.ReplyHandle` | components/multi_net_io/libevent/evdns.c:867-957 | after an answer or a final error the request is over; after a server failure it is if and only if its retransmissions are used up; besides it only a probe leaves; no request appears |
| `DnsScheduler.EvdnsBase.HandleRefused` | components/multi_net_io/libevent/evdns.c:895-906 | a refused request is over when it has been reissued too often; if it had been sent and another server is up it goes there, marked to be sent afresh |
| `DnsScheduler.EvdnsBase.ServerAnswered` | components/multi_net_io/libevent/evdns.c:919-930 | the server is up, the request that was answered is still there, and only a probe may have been cancelled |
| `DnsScheduler.EvdnsBase.NameserverAdd` | components/multi_net_io/libevent/evdns.c:2484-2554 | 3 if and only if the address is known; else the server is up, counted, and right behind the head |
| `DnsScheduler.EvdnsBase.SetMaxRequestsInflight` | components/multi_net_io/libevent/evdns.c:3385-3414 | for every maximum whose sum with 4 is an int, every request in flight sits in bucket id modulo the new number of heads, and nothing else changes |
| `DnsScheduler.EvdnsBase.Rehash` | components/multi_net_io/libevent/evdns.c:3400-3407 | the loop over the old queues refiles every request exactly once |
| `DnsScheduler.Run` | components/multi_net_io/libevent/evdns.c:304-330 | over every run of asks, cancels, timeouts, replies, server failures, probes, added servers, rehashes and resumes, with any outcome of any send, the counters agree with queues and servers, buckets are right and ids distinct; as many requests were asked for as there were asks, each of them is still there unless an event has named it, and everything else there is a probe |
| `DnsScheduler.Perform` | components/multi_net_io/libevent/evdns.c:866-957 | an event adds at most the request or probe it asks for and removes only a request it names or a probe; a cancel, an answer and a final error do remove theirs |
| `DnsScheduler.PerformOnRequests` | components/multi_net_io/libevent/evdns.c:866-957 | the same for the events that bring nothing new |
| `Links.PushFrontLinked` | components/centralized-lock-table/include/uthash.h:780-789 | the four pointer writes put an item in front of a doubly linked list and disturb no other list |
| `Links.PushBackLinked` | components/centralized-lock-table/include/uthash.h:289-295 | appending behind the tail gives the list with one item more |
| `Links.UnlinkLinked` | components/centralized-lock-table/include/uthash.h:475-482 | joining the neighbours of an item gives the list without it and disturbs no other list |
| `HashChains.ToBktIsRemainder` | components/centralized-lock-table/include/uthash.h:441-444 | with a power of two of buckets the mask is the remainder of the hash value |
| `HashChains.ChainMore` | components/centralized-lock-table/include/uthash.h:780-799 | an item put in front of the chain of its bucket: all chains and counts are right again |
| `HashChains.ChainLess` | components/centralized-lock-table/include/uthash.h:802-815 | an item taken out of its chain: all chains and counts are right again |
| `HashChains.MoveItem` | components/centralized-lock-table/include/uthash.h:865-881 | moving one item to its new bucket keeps chains, counts and the number beyond the ideal length |
| `HashChains.MoveChain` | components/centralized-lock-table/include/uthash.h:863-882 | a whole old chain is moved, although its links are overwritten on the way |
| `HashChains.Redistribute` | components/centralized-lock-table/include/uthash.h:846-883 | twice as many buckets hold exactly the same items, each in its bucket, with exact counts |
| `HashChains.ExcessUpdate` | components/centralized-lock-table/include/uthash.h:869-874 | the count of items beyond the ideal length follows every move |
| `MergeSort.MergedMembers` | components/centralized-lock-table/include/uthash.h:930-970 | a merge holds the items of both runs |
| `MergeSort.MergedAscending` | components/centralized-lock-table/include/uthash.h:943-958 | merging two ascending runs, the first of which came first, is ascending with ties in order |
| `MergeSort.PassRuns` | components/centralized-lock-table/include/uthash.h:917-972 | a pass over runs of length w leaves runs of length 2w of the same stretches |
| `MergeSort.PassMembers` | components/centralized-lock-table/include/uthash.h:917-972 | a pass is a permutation |
| `MergeSort.OneMerge` | components/centralized-lock-table/include/uthash.h:976-980 | a pass with at most one merge is one over at most 2w items, so the last |
| `MergeSort.LastPass` | components/centralized-lock-table/include/uthash.h:976-980 | after the last pass the list is sorted, stable and a permutation |
| `UthashSort.MergeTwo` | components/centralized-lock-table/include/uthash.h:929-970 | the in-place merge relinks two runs into their merge, with correct prev pointers, and leaves the rest of the list |
| `UthashSort.SkipRun` | components/centralized-lock-table/include/uthash.h:919-928 | the length of the first run and where the second starts |
| `UthashSort.MergePair` | components/centralized-lock-table/include/uthash.h:917-972 | one round merges the next two runs of what is left |
| `UthashSort.MergePass` | components/centralized-lock-table/include/uthash.h:912-975 | one pass leaves a doubly linked list, with head and tail, and counts its merges |
| `UthashSort.Sort` | components/centralized-lock-table/include/uthash.h:903-985 | terminates and leaves a doubly linked permutation of the list; sorted and stable when the comparator is a total preorder |
| `Uthash.HashTable.constructor` | components/centralized-lock-table/include/uthash.h:223-253 | an empty table is valid |
| `Uthash.HashTable.Find` | components/centralized-lock-table/include/uthash.h:164-184 | an item is returned if and only if its key is there |
| `Uthash.HashTable.Fsck` | components/centralized-lock-table/include/uthash.h:527-574 | the table's own integrity check succeeds on every valid table: counts, prev links and both totals |
| `Uthash.HashTable.Lists` | components/centralized-lock-table/include/uthash.h:1069-1075 | walking the list meets exactly the items |
| `Uthash.HashTable.Add` | components/centralized-lock-table/include/uthash.h:348-426 | the item is appended to the list and put into its bucket; list, chains, counts, tail and size stay right through an expansion |
| `Uthash.HashTable.MakeTable` | components/centralized-lock-table/include/uthash.h:223-253 | 32 empty buckets |
| `Uthash.HashTable.AddToBkt` | components/centralized-lock-table/include/uthash.h:780-799 | into its bucket, doubling the buckets when it is too long |
| `Uthash.HashTable.ExpandBuckets` | components/centralized-lock-table/include/uthash.h:846-896 | the buckets double and stay a power of two, the ideal length is the rounded-up mean, and expansion stops after two ineffective ones |
| `Uthash.HashTable.Delete` | components/centralized-lock-table/include/uthash.h:461-488 | exactly that item leaves list and bucket, with head, tail and counts right; the last one frees the table |
| `Uthash.HashTable.DelInBkt` | components/centralized-lock-table/include/uthash.h:802-815 | the chain without the item, with the right head and count |
| `Uthash.HashTable.Sort` | components/centralized-lock-table/include/uthash.h:902-985 | the list becomes a sorted, stable permutation while buckets and keys, and so every find, stay as they were |
| `Uthash.AllChained` | components/centralized-lock-table/include/uthash.h:553-556 | the chains together hold as many items as the list |
| `Uthash.IdealIsCeiling` | components/centralized-lock-table/include/uthash.h:859-861 | the shift and mask compute the rounded-up mean chain length |
| `Uthash.Run` | components/centralized-lock-table/include/uthash.h:164-184 | over every run of adds, removals and sorts find gives what a plain map gives, and from step to step the list gains the item at its end, loses exactly the one removed, or becomes the sorted permutation of itself |
| `Uthash.Perform` | components/centralized-lock-table/include/uthash.h:348-488 | every operation keeps list and buckets together the plain map and changes the list as it should |
| `EpollTable.TableFollowsRule` | components/multi_net_io/libevent/epolltable-internal.h:124-139 | all 512 entries of the table do what the rule says: the resulting interest decides between ADD, MOD, DEL and nothing, and a change that is no change code is invalid |
| `Evmap.CountsWithout` | components/multi_net_io/libevent/evmap.c:366-398 | removing a listed event takes one off each count it was in |
| `Evmap.ApplyHonest` | components/multi_net_io/libevent/epoll.c:267-353 | a change that states the old interest truly is one epoll_ctl call that does not fail and leaves exactly the interest asked for |
| `Evmap.EventBase.constructor` | components/multi_net_io/libevent/evmap.c:266-342 | an empty base is valid |
| `Evmap.EventBase.GetOrConstruct` | components/multi_net_io/libevent/evmap.c:824-852 | the descriptor's change is found or made, and the goals of all descriptors stay |
| `Evmap.EventBase.BackendAdd` | components/multi_net_io/libevent/evmap.c:855-887 | recorded or told at once: the goal of the descriptor gains exactly the events |
| `Evmap.EventBase.BackendDel` | components/multi_net_io/libevent/evmap.c:890-939 | the goal loses exactly the events; a deletion of what the kernel never knew is dropped |
| `Evmap.EventBase.MakeSlot` | components/multi_net_io/libevent/evmap.c:280-287 | a slot for the descriptor, other slots unchanged |
| `Evmap.EventBase.IoAdd` | components/multi_net_io/libevent/evmap.c:266-342 | the event is listed and counted, and the goal is the set of non-zero counts; -1 and no change exactly when a count would overflow |
| `Evmap.EventBase.Register` | components/multi_net_io/libevent/evmap.c:325-341 | only what became wanted is told to the backend |
| `Evmap.EventBase.IoDel` | components/multi_net_io/libevent/evmap.c:347-409 | the event is gone, and the goal is again the set of non-zero counts |
| `Evmap.EventBase.Dispatch` | components/multi_net_io/libevent/epoll.c:356-372 | after a dispatch the kernel watches on every descriptor exactly what is wanted, and no change is left |
| `Evmap.ApplyChanges` | components/multi_net_io/libevent/epoll.c:356-372 | every call succeeds and each descriptor gets its goal |
| `Evmap.RemoveAll` | components/multi_net_io/libevent/evmap.c:768-786 | no descriptor has a change any more |
| `Evmap.Run` | components/multi_net_io/libevent/evmap.c:823-939 | over every run of adds, deletes and dispatches the kernel's interest after a dispatch is the set of non-zero counts, on the coalescing and on the immediate backend alike |
| `TokenBucket.RefilledIsMin` | components/multi_net_io/libevent/bufferevent_ratelim.c:74-111 | the overflow-avoiding update, wrapped to signed 64 bits, is min(maximum, limit + ticks * rate) if and only if the limit is not above the maximum or the ticks carry it once around; otherwise the bucket grows, or wraps to below its maximum when it passes the largest signed number |
| `TokenBucket.AboveMaximum` | components/multi_net_io/libevent/bufferevent_ratelim.c:74-111 | inputs for all three things that happen above the maximum: growing, falling below it, being cut to it |
| `TokenBucket.NextKeeps` | components/multi_net_io/libevent/bufferevent_ratelim.c:74-111 | updates and capped reads keep the limit at most the maximum and conserve bytes against elapsed time |
| `TokenBucket.BytesBounded` | components/multi_net_io/libevent/bufferevent_ratelim.c:198-308 | over any run the bytes moved are at most the maximum plus the elapsed ticks times the rate |
| `TokenBucket.DebtIsRepaid` | components/multi_net_io/libevent/bufferevent_ratelim.c:394-439 | a bucket in debt is positive after at most as many updates as it owes, so the refill timer is not needed for ever |
| `Bufferevent.BuffereventPrivate.constructor` | components/multi_net_io/libevent/bufferevent.c:67-112 | a new bufferevent satisfies the invariant |
| `Bufferevent.BuffereventPrivate.Disarm` | components/multi_net_io/libevent/bufferevent_sock.c:588-602 | the events named are not armed afterwards, except the write event while connecting |
| `Bufferevent.BuffereventPrivate.Arm` | components/multi_net_io/libevent/bufferevent_sock.c:576-585 | the events named are armed afterwards |
| `Bufferevent.BuffereventPrivate.SuspendRead` | components/multi_net_io/libevent/bufferevent.c:67-76 | the reason is added and the read event disarmed |
| `Bufferevent.BuffereventPrivate.UnsuspendRead` | components/multi_net_io/libevent/bufferevent.c:79-88 | the reason is removed; the read event is armed exactly when it is enabled and no reason is left |
| `Bufferevent.BuffereventPrivate.SuspendWrite` | components/multi_net_io/libevent/bufferevent.c:91-100 | the reason is added and the write event disarmed unless connecting |
| `Bufferevent.BuffereventPrivate.UnsuspendWrite` | components/multi_net_io/libevent/bufferevent.c:103-112 | the reason is removed; the write event is armed when it is enabled and no reason is left |
| `Bufferevent.BuffereventPrivate.Enable` | components/multi_net_io/libevent/bufferevent.c:460-480 | enabled events are armed unless suspended |
| `Bufferevent.BuffereventPrivate.Disable` | components/multi_net_io/libevent/bufferevent.c:551-563 | disabled events are not armed, except the write event while connecting |
| `Bufferevent.BuffereventPrivate.UpdateBuckets` | components/multi_net_io/libevent/bufferevent_ratelim.c:114-124 | both buckets are credited the elapsed ticks; within their maxima they stay so and do not fall |
| `Bufferevent.BuffereventPrivate.GetReadMax` | components/multi_net_io/libevent/bufferevent_ratelim.c:198-258 | what the updated bucket allows, never below zero, or the single-read limit without a configuration |
| `Bufferevent.BuffereventPrivate.DecrementRead` | components/multi_net_io/libevent/bufferevent_ratelim.c:273-308 | the bucket pays or is refunded; reading is suspended and the refill timer pending exactly when it is empty; other reasons stay |
| `Bufferevent.BuffereventPrivate.DecrementWrite` | components/multi_net_io/libevent/bufferevent_ratelim.c:311-346 | the same for writing |
| `Bufferevent.BuffereventPrivate.DecrementReadLimit` | components/multi_net_io/libevent/bufferevent_ratelim.c:971-996 | a charge or refund by the user: the suspension follows when the bucket crosses zero, the timer stays pending while the other side needs it, and an empty bucket stays suspended |
| `Bufferevent.BuffereventPrivate.DecrementWriteLimit` | components/multi_net_io/libevent/bufferevent_ratelim.c:998-1025 | the same for writing |
| `Bufferevent.BuffereventPrivate.RefillCallback` | components/multi_net_io/libevent/bufferevent_ratelim.c:394-439 | buckets that became positive are released, and the timer is pending again while any is not |
| `Bufferevent.BuffereventPrivate.InitBuckets` | components/multi_net_io/libevent/bufferevent_ratelim.c:50-71 | a new bucket is full of one tick's worth, an old one is cut to the new maximum |
| `Bufferevent.BuffereventPrivate.SetRateLimit` | components/multi_net_io/libevent/bufferevent_ratelim.c:560-636 | for every old and new configuration the suspensions and the timer fit the new buckets |
| `Bufferevent.Run` | components/multi_net_io/libevent/bufferevent_ratelim.c:394-439 | no lost wake-up: whatever is held, released, charged, refunded, configured, read and refilled, a bandwidth suspension implies a pending refill timer and the read event is armed exactly when enabled and unsuspended; without refunds an empty bucket is suspended, so no read is tried on it, and the bytes read are at most the maximum plus the rate times the elapsed ticks, through wrap-around of the tick counter |
| `Bufferevent.ReadSome` | components/multi_net_io/libevent/bufferevent_sock.c:146-225 | stops at the high watermark, suspending reading; else reads exactly the lesser of what is there and what updated bucket and watermark allow, cut to a C int, pays for it, and keeps the account of bytes against ticks; nothing is read while suspended, a retriable error changes nothing, and a broken socket or a read of nothing ends reading |
| `Bufferevent.TakeBytes` | components/multi_net_io/libevent/bufferevent_sock.c:186-212 | what is read is at most the share, is paid for, and reading goes on exactly when it is something |
| `Bufferevent.LookUp` | components/multi_net_io/libevent/bufferevent_ratelim.c:198-258 | finding out the allowance credits the elapsed ticks and keeps the account |
| `Bufferevent.AskedAllowed` | components/multi_net_io/libevent/bufferevent_sock.c:179-187 | what is asked for is never more than the allowance, is nothing if and only if the allowance is a multiple of 2^32, and below 2^31 the cast changes nothing |
| `Bufferevent.UpdateKeeps` | components/multi_net_io/libevent/bufferevent_ratelim.c:74-111 | an update of a bucket within its maximum keeps the account |
| `Bufferevent.Perform` | components/multi_net_io/libevent/bufferevent_ratelim.c:394-439 | every event keeps the invariant, and unless it is a refund also the account and the suspension of empty buckets |
| `Bufferevent.Fire` | components/multi_net_io/libevent/bufferevent_ratelim.c:394-439 | a refill keeps the account |
| `Bufferevent.Credit` | components/multi_net_io/libevent/bufferevent_ratelim.c:127-140 | the 32-bit tick difference never credits more than passed |
| `PageLock.FoldTellsPagesApart` | components/centralized-lock-table/server/remote_page_lock_manager.cc:16-20 | pages of one space never share a table entry; pages of different spaces may |
| `PageLock.RemotePageLockManager.constructor` | components/centralized-lock-table/server/remote_page_lock_manager.cc:45-60 | an empty table |
| `PageLock.RemotePageLockManager.CheckLockRequest` | components/centralized-lock-table/server/remote_page_lock_manager.cc:84-133 | answer, code and new table for every request |
| `PageLock.RemotePageLockManager.UpdateUnlock` | components/centralized-lock-table/server/remote_page_lock_manager.cc:154-172 | the asker is a holder no more, the version stays, and a disciplined entry stays so if and only if there was no other holder |
| `PageLock.RemotePageLockManager.UpdateSuccess` | components/centralized-lock-table/server/remote_page_lock_manager.cc:174-184 | the holders grow by the asker, the version rises by one for a write lock and only then, and a compatible grant keeps the entry disciplined |
| `PageLock.RemotePageLockManager.UpdateFail` | components/centralized-lock-table/server/remote_page_lock_manager.cc:186-207 | waiting entries of the asker are raised; none is added |
| `PageLock.RemotePageLockManager.Serve` | components/centralized-lock-table/server/remote_page_lock_manager.cc:84-133 | a whole run computes the run's table and replies |
| `PageLock.HoldersAreOutstanding` | components/centralized-lock-table/server/remote_page_lock_manager.cc:84-207 | on every run whatsoever the holders of an entry are the locks given and not given back, in order, and nobody ever waits, so the hand-off never happens |
| `PageLock.StepKeepsDiscipline` | components/centralized-lock-table/server/remote_page_lock_manager.cc:84-207 | one request keeps the lock discipline if and only if it is not an unlock by someone other than the sole holder |
| `PageLock.DisciplineIffWellUsed` | components/centralized-lock-table/server/remote_page_lock_manager.cc:84-207 | on every run: write-locked means one holder and unlocked means none in every state, if and only if every unlock comes from the sole outstanding holder |
| `PageLock.HeldModes` | components/centralized-lock-table/server/remote_page_lock_manager.cc:174-184 | on every rightful run, one in which no unlock comes while someone else holds a lock, the entry says which read and write locks are held: none, readers only, or one writer |
| `PageLock.MutualExclusion` | components/centralized-lock-table/server/remote_page_lock_manager.cc:7-11 | on every run in which no unlock comes while someone else holds a lock, mutual exclusion holds: a write lock is held alone and only readers share |
| `PageLock.ExclusionIffRightful` | components/centralized-lock-table/server/remote_page_lock_manager.cc:7-11 | on every run: mutual exclusion of read and write locks holds at every moment whatever is asked next, if and only if no unlock comes while someone else holds a read or write lock |
| `PageLock.WrongfulLetsWriterIn` | components/centralized-lock-table/server/remote_page_lock_manager.cc:154-158 | after any run whatsoever, an unlock while someone else holds a lock and then any write request on the page put the writer beside a lock that is not the unlocker's |
| `PageLock.WellUsedIffRightful` | components/centralized-lock-table/server/remote_page_lock_manager.cc:84-133 | the use that keeps entries disciplined is the rightful use in which moreover every unlock is of a page somebody has asked for |
| `PageLock.UnlockOfUnknownPage` | components/centralized-lock-table/server/remote_page_lock_manager.cc:84-105 | an unlock of a page nobody has asked for is granted like a lock, which breaks the entry's discipline but not mutual exclusion |
| `PageLock.NextIsExclusive` | components/centralized-lock-table/server/remote_page_lock_manager.cc:84-207 | after any rightful run the next request, even a wrongful unlock, does not break exclusion by itself |
| `PageLock.RefusedExactlyOnConflict` | components/centralized-lock-table/server/remote_page_lock_manager.cc:114-132 | on rightful runs a lock is refused if and only if it would conflict with a lock that is held |
| `PageLock.WriterBesideReader` | components/centralized-lock-table/server/remote_page_lock_manager.cc:154-158 | the unconditional form is false: one of two readers unlocks, and a writer is let in beside the other |
| `PageLock.VersionCountsWrites` | components/centralized-lock-table/include/lock_common.h:27-34 | the version is the number of write locks given since the entry was made, modulo 2^64 |
| `PageLock.VersionNeverFalls` | components/centralized-lock-table/include/lock_common.h:27-34 | versions never fall and rise by exactly one per write grant, over every run of at most 2^64 requests; entries are never removed |

## Left out

- Allocation failure: every allocation succeeds, and a chain is never refused for its size.
- evbuffer: the chain list is a sequence of chain values and the cached pointers are positions in
  it; relinking a chain between buffers moves the value, so sharing of one chain object is not modelled.
- evbuffer: pinned, multicast and file-segment chains, `evbuffer_prepend_buffer`, reserve and commit,
  sendfile and mmap, socket reads and writes, callbacks, reference counts and locks.
- evbuffer: what the operations other than add and add_reference do on a buffer whose length has wrapped.
- ChainMemory: the byte-level blocks refine the updates of one chain; the buffer methods use chain values
  and do not call the blocks.
- EvbufferRun.Run: covers runs on unfrozen buffers in which no unchecked sum passes SIZE_MAX. Which references
  are in a buffer is tracked from above: one that may hold any takes no empty prepend, and one that may hold
  an empty one no prepend while it has no bytes, the cases in which `Prepend` can break the list.
- EvbufferRun.Perform: the same.
- EvbufferSearch.SearchEol: needs the length of the chains to fit a `size_t`, which is how the source stores it.
- TaggedStream.Unmarshal: source and destination are different buffers; with one buffer the source copies
  from memory that the copy may move.
- Tagging: the convenience wrappers for strings, times and fixed-size payloads, and `evtag_unmarshal_int`.
- DnsWire.DnsnameToLabels: requires memory behind the buffer length in exactly the case in which the
  unchecked terminator is written there, and a name without zero bytes, as a C string is.
- DnsName.MessageRoundTrip: messages of at most 0x4000 bytes, beyond which pointers do not reach.
- evdns: sockets, timers, getaddrinfo, resolv.conf and hosts parsing, search domains, the server side,
  suspending and freeing. The result of a send is arbitrary, so every network behaviour is covered.
- evdns scheduler: requests and servers are identified by numbers that are never reused; circular lists
  are sequences from their head, so `next` and `prev` pointers are not modelled there.
- DnsScheduler.EvdnsBase.TransactionIdPick: the draws are arbitrary, but a free id is drawn sooner or later; with
  65535 requests in flight the source draws for ever, so it requires fewer (`DnsState.SomeIdIsFree`), and
  every operation that may draw takes a configured maximum of at most 65535.
- DnsScheduler.EvdnsBase.SendProbe: requires a free transaction id, without which the source does not return.
- DnsScheduler.EvdnsBase.SetMaxRequestsInflight: requires a maximum for which the `int` sum of it and 4
  does not overflow.
- DnsScheduler.Run: the maxima configured are at most 65535.
- DnsScheduler.EvdnsBase.ReplyHandle: replies are classified already; retrying with the next search domain is left out.
- DnsScheduler.EvdnsBase.NameserverAdd: socket errors are left out; the address length is accepted.
- No bound of the requests in flight by the configured maximum is claimed: probes are forced in.
- uthash: bloom filters, recovery from failed allocation, the hash functions themselves (any function is
  allowed), HASH_SELECT, HASH_REPLACE, in-order insertion and clearing.
- uthash: 32-bit wrap-around of counts and of the run length in the sort.
- Uthash.HashTable.Add: requires, as uthash does, an item that is not in the table and a key that is not there.
- UthashSort.Sort: sortedness and stability need a comparator that is a total preorder on the items; the
  permutation and the links do not.
- evmap and epoll: signals, edge-triggered flags, descriptors that are closed and reopened, and failures of
  `epoll_ctl` that the bookkeeping does not cause. Only registered events are withdrawn.
- Rate limiting: groups, random starting order, the write half of the byte account, and failures of
  `event_add`. Limits do not pass the signed 64-bit range, which is undefined in C.
- Bufferevent.BuffereventPrivate.GetReadMax: without a rate-limit group; the write side is the same code.
- PageLock.VersionNeverFalls: runs of at most 2^64 requests; beyond that the 64-bit version wraps.
- Page lock table: a lock type outside the three of the protocol, messages and callbacks.
- The id service, deployment scripts, logger, clients and server mains: thin or foreign code.
- Windows, Solaris and OpenSSL backends, and random number generation.
