# bklib, modelled and proved in Dafny

bklib is a C library of in-memory containers and protocol code. This project models its stateful core and
proves what callers rely on, over every input and every run:

- **Names in DNS messages** (`DnsName`, `DnsMessage`, `DnsRoundTrip`): the packer with its suffix dictionary, the unpacker with its
  jump budget, where char is signed or not, and messages built from any mixture of names, failed names and other octets.
- **DNS header and proxy** (`DnsHeader`, `DnsProxy`, `DnsProxyRuns`): the bit-field codec is lossless, and in whole runs
  of the proxy every relayed reply answers the right request once.
- **Socket pipe and send queue** (`Pipe`, `SendList`, `FdSelect`, `Kernel`): handlers against a kernel whose answers are
  given as a list; ghost fields record what each socket received, sent and was told to shut down.
- **Connection tracking** (`TcpStream`, `ConnTrack`, `ConnHistory`): reassembly with 32-bit wrap-around, the
  two-orientation table, and what every live connection holds of the packets seen since it was created.
- **Hash table and arrays** (`Hash`, `GrowArray`): refinement of a finite map, traversal with deletion, amortised growth.
- **Checksums and TCP options** (`Checksum`, `TcpOptions`): one's-complement sums in both byte orders, incremental
  update against recomputation, removal of SACK-permitted in place.
- **Quoting** (`Opt`), **HTTP headers** (`HttpText`, `Http`, `HttpRoundTrip`, `HttpParser`, `HttpContent`, `HttpErrors`,
  `HttpLayout`), **linked list** (`LList`).

The C code that changes things step by step is a class or method here, with the loops, branches and limits of the source.
Each is proved against a specification function, and the lemmas about that function say what the code is for. A kernel
call is a method that is given the answer, whatever it is. `Bytes` holds octets and sequence facts shared by the modules.
`dafny verify dfyconfig.toml` checks the project.

Where the code does not do what it is for, the model keeps the code, and a lemma says exactly when it does:

- a request or response word of one character is lost by `http_strdup`, a content length of one digit among them
  (`HttpText.DupTight`, `HttpRoundTrip.RequestRoundTrip`, `HttpContent.LengthIsRead`);
- an empty response code lets `strtoul` look past the byte being parsed; the result then depends on what follows, unless
  the number found is out of range already (`Http.StableExactly`, `HttpRoundTrip.EmptyCodeIsUnstable`);
- a pipe that closes because the send in a read handler failed reports CLOSED twice, and without a callback closes both
  descriptors twice (`Pipe.Pipe.Read`, `Pipe.ResetReportsTwice`);
- a put that finds more than 2^29+1 buckets compares with an int that has overflowed: the bucket count is no 2^k+1 any
  more and every put copies the whole table (`Hash.GrowthExactly`, `Hash.GrowthFails`, `Hash.EveryPutCopies`);
- a request that finds no free proxy id drops another client's request (`DnsProxyRuns.ForwardKeepsOthers`);
- a segment exactly one octet ahead is let in one octet early, as is the acknowledgement after a FIN, which is not
  counted; data in a SYN loses its first octet (`TcpStream.SegmentKeepsStream`, `TcpStream.AckAfterFin`, `TcpStream.SynData`);
- empty arguments vanish from a printed line, NUL comes back as the digit zero (`Opt.RoundTrip`, `Opt.EscapeRoundTrip`);
- a failing `opt_cat` may store a NUL behind its buffer (`Opt.OptCat`, `Opt.FailureCanOverrun`);
- `opt_str2argv` stores a NUL behind the one that ends the text exactly when the text is single-spaced, like one letter
  (`Opt.PackedLength`, `Opt.OneLetterOverruns`), and reads on behind it exactly when the text ends in an unfinished escape
  between quotes (`Opt.ReadsPastNul`, `Opt.LoneBackslashReadsOn`);
- `array_remove_idx` finds an element at some negative indices that are out of range (`GrowArray.RemovableExactly`,
  `GrowArray.FindsOutOfRange`);
- back-references to offsets of 0x4000 or more decode to another offset, and where char is signed those with a low octet
  of 128 or more to none (`DnsRoundTrip.PointerDecodes`, `DnsRoundTrip.FarOffsetMisleads`, `DnsName.SignedWalk`);
- a name that fails to pack leaves dictionary entries that mislead later names (`DnsRoundTrip.FailedPackMisleads`);
- a name of 100 labels may need more jumps than the budget of 99 (`DnsRoundTrip.JumpBudgetIsTight`);
- a UDP packet sent without a checksum gets a wrong one when its addresses are rewritten (`Checksum.UnsummedUdp`);
- dropping the read event or the address-list event alone leaves the other without its function
  (`FdSelect.UpdateKeepsArmed`, `FdSelect.DroppingEitherDisarms`).

## Model

| member | source | states |
|---|---|---|
| DnsMessage.Dns.PackName | dns.c:117-186 | writes exactly the specified octets at the place given and nothing elsewhere, updates the dictionary, and returns their number or -1, also when packing stops half-way |
| DnsMessage.Dns.UnpackName | dns.c:191-253 | yields the dotted text reached from a position through labels and back-references with a budget of 99 jumps, with its NUL and the end position; -1 otherwise; with char signed or unsigned |
| DnsMessage.Dns.CopyLabel | dns.c:226-245 | succeeds exactly when the text so far, a dot and the label leave room for a NUL, and then holds exactly the joined labels |
| DnsName.WalkCases | dns.c:200-248 | one turn of the unpacking loop is one step of following labels and references |
| DnsName.JoinAppend | dns.c:232-244 | adding a dot only before later labels builds the dotted text |
| DnsName.RoomForNul | dns.c:226-250 | a name that can be followed is unpacked if and only if the destination has room for its text and a NUL |
| DnsName.SignedWalk | dns.c:212-219 | where char is signed a name is read exactly when it is read elsewhere and every reference on its way has a low octet below 128, and then alike |
| DnsRoundTrip.PackSound | dns.c:117-186 | packing a name whose reference goes to a sound entry within 14 bits keeps all sound entries, makes every suffix it writes sound, and the name resolves within as many jumps as it has labels |
| DnsRoundTrip.BuildSound | dns.c:117-186 | sound entries stay sound over a whole message of names and other octets sharing the dictionary, whether or not each name packs |
| DnsRoundTrip.NameRoundTrip | dns.c:117-253 | a packed name whose reference, if any, goes to a sound entry within 14 bits is unpacked unchanged, whatever comes later, if and only if its labels have 1 to 63 characters, it does not end in a dot, at most 99 jumps are needed and, with char signed, the references are low; its end is where packing ended, and every reference on the way goes strictly backward |
| DnsRoundTrip.MessageRoundTrip | dns.c:117-253 | the same for a message begun with a header, for names at any place in it and after any failed names; where char is unsigned at most 99 labels always suffice |
| DnsRoundTrip.PointerDecodes | dns.c:148-155 | a back-reference decodes to the offset it was made for if and only if the offset is below 0x4000 and, with char signed, its low octet is below 128 |
| DnsRoundTrip.KeptIsText | dns.c:117-186 | what the labels written spell is the text itself if and only if no label is empty and there is no final dot |
| DnsRoundTrip.LongLabelsNeverUnpack | dns.c:208-245 | no message whatever unpacks to a text with a label of 64 characters or more |
| DnsRoundTrip.BudgetIsJumpCount | dns.c:191-253 | a name that can be read is read if and only if the budget covers the references on its way |
| DnsRoundTrip.PackNameEnd | dns.c:191-253 | the end position reported for a packed name is the first octet after what was written for it |
| DnsRoundTrip.CleanIsTraceable | dns.c:117-186 | as long as every name packs and offsets stay below 0x4000 every entry is sound, so that the round trip holds of every name |
| DnsRoundTrip.NameReadsExactly | dns.c:117-253 | with any dictionary at all, a well-formed name ending in a reference is read back if and only if the place its entry points at, cut to 14 bits, reads as the suffix of the entry |
| DnsRoundTrip.FailedPackMisleads | dns.c:159-179 | a concrete message where a name that does not pack makes a later, well-formed one unreadable |
| DnsRoundTrip.FarOffsetMisleads | dns.c:148-155 | a concrete message where a reference to offset 0x4000 is not read back |
| DnsRoundTrip.JumpBudgetIsTight | dns.c:191-224 | a well-formed name of 100 labels packed again after itself is not read back: 99 is the most that always works |
| DnsHeader.EncodeDecode | dns.c:71-113 | unpacking and packing a header restores its twelve octets, for all of them |
| DnsHeader.DecodeEncode | dns.c:71-113 | packing and unpacking restores the fields if and only if each fits its width |
| DnsHeader.WireFormat | dns.c:71-113 | the twelve octets hold the fields in network order at the bits RFC 1035 gives them |
| DnsHeader.FieldsOfFlags | dns.c:17-23 | reading a packed flag word gives each field cut to its width, none disturbed by another |
| DnsHeader.SetAll | dns.c:87-97 | clearing and setting the eight fields one after the other builds the sum of the shifted fields |
| DnsHeader.SetBitsReplaces | dns.c:17-23 | packing a field replaces its bits and leaves those above and below as they were |
| DnsHeader.RewriteId | dns.c:71-113 | unpacking, changing the id and packing changes the first two octets of a message and no other |
| DnsMessage.Dns.UnpackHeader | dns.c:71-113 | the fields become those of the first twelve octets in network order; returns the position reached |
| DnsMessage.Dns.PackHeader | dns.c:71-113 | the first twelve octets become the encoded fields, the rest of the message stays; returns the position reached |
| DnsProxy.Proxy.NewId | dns_proxy.c:155-160 | finds the first of a thousand draws that is no pending id; if there is none, leaves the entry of the last draw in hand |
| DnsProxy.Proxy.SendAll | dns_proxy.c:181-197 | the message goes to the servers from the last to the first, up to the first that takes less than all of it |
| DnsProxy.Proxy.Forward | dns_proxy.c:127-205 | on success the new id stands for socket, address, original id and expiry, and the servers get the message with only its id changed; a short message changes nothing; without a free id the request holding the last draw is dropped |
| DnsProxy.Proxy.SelectRecv | dns_proxy.c:209-266 | a reply to a pending id goes to the stored socket and address with the stored id, and the entry is gone; other messages change nothing |
| DnsProxy.Proxy.ForeachExpire | dns_proxy.c:96-108 | a visited request is dropped exactly when its time is over |
| DnsProxy.Proxy.Poll | dns_proxy.c:110-123 | once the polling time has come, exactly the requests whose time is over leave the table; before it nothing changes |
| DnsProxyRuns.EveryRunSound | dns_proxy.c:96-266 | in every run pending ids belong to distinct unanswered requests; every relay goes to its request's socket and address and is the reply that came under the forwarded id with only its two id octets replaced; no request is answered twice |
| DnsProxyRuns.ReplyReachesClient | dns_proxy.c:209-266 | the first reply under the id of a request that nothing removed meanwhile is relayed as the answer to that request |
| DnsProxyRuns.StaysExactly | dns_proxy.c:96-266 | a pending request leaves the table only by a reply with its id, the clock, or a request that finds no free id |
| DnsProxyRuns.StillPending | dns_proxy.c:128-205 | a forwarded request stays pending, owned by its event, until such a removal |
| DnsProxyRuns.ExpiresExactly | dns_proxy.c:96-123 | the clock drops a pending request exactly when it looks and more than ten seconds have gone by since the request was forwarded |
| DnsProxyRuns.LooksOnceASecond | dns_proxy.c:110-123 | having looked, the clock looks again at the first tick a second later or more |
| DnsProxyRuns.LooksFirst | dns_proxy.c:110-123 | its first look is at the first tick |
| DnsProxyRuns.ForwardKeepsOthers | dns_proxy.c:155-202 | forwarding leaves all other requests alone if and only if the message is too short or some draw is free |
| DnsProxyRuns.ForwardCanDropAnother | dns_proxy.c:155-202 | a concrete table and draws where another client's request is lost |
| FdSelect.FdSelect.Set | fdselect.c:86-135 | changes the entry of one descriptor as specified and no other, keeps entries unique and non-empty, and interrupts the wait |
| FdSelect.FdSelect.Unset | fdselect.c:137-142 | the same with no function, where no events stands for all of them |
| FdSelect.FdSelect.FindFd | fdselect.c:94-100 | finds the entry of a descriptor, or that there is none |
| FdSelect.UpdateKeepsArmed | fdselect.c:86-135 | every event waited for keeps a function to call, except exactly when a call without a function names one of the two events the read function serves while the entry still waits for the other |
| FdSelect.DroppingEitherDisarms | fdselect.c:117-127 | a concrete entry that loses its read function with either event |
| Pipe.Pipe.constructor | fdselect_pipe.c:45-86 | both halves start reading from their own buffers, with nothing buffered, received or sent, and the invariant of the pipe holds |
| Pipe.Pipe.Drain | fdselect_pipe.c:215-272 | for any answers of the kernel the send loop takes out exactly the octets accepted, loses or repeats none; when the round ends with a write error, and only then, the error is recorded, the other side is shut down for receiving once and no longer read; otherwise the buffer is empty or the kernel full |
| Pipe.Pipe.Fill | fdselect_pipe.c:114-165 | for any answers of the kernel the receive loop buffers exactly the octets that arrive and fit; when the round ends with the end of the stream, and only then, it is recorded and the receiving side shut down once; otherwise the buffer is full or there is nothing to read |
| Pipe.Pipe.Rearm | fdselect_pipe.c:279-325 | after sending, write-select is on exactly when octets remain and no error occurred, and the far side is shut down once, when the stream ended and is out |
| Pipe.Pipe.Read | fdselect_pipe.c:106-204 | the read handler keeps the whole invariant in both directions: received octets are those sent on plus those buffered, read-select is on exactly when there is room and no read error, write-select exactly when octets remain and no write error, one shutdown for sending, and one for receiving by each of the two errors, exactly when there was one; a pipe that is closed afterwards was reported twice if the send of this call failed, else once, and without a callback both sockets were closed as often |
| Pipe.Pipe.Write | fdselect_pipe.c:208-331 | sending keeps conservation, arms write-select and shuts down as due, and reports CLOSED exactly when neither side waits for anything |
| Pipe.Pipe.Writable | fdselect_pipe.c:208-331 | the write handler keeps the whole invariant, takes out what the kernel accepts, and reports CLOSED once exactly when the pipe is closed afterwards |
| Pipe.Pipe.Dispatch | fdselect_pipe.c:106-331 | exactly the handler of a registered event runs and does what the kernel's answers make of it, anything else touches nothing; the invariant is kept whatever the kernel answers, and a closed pipe stays closed and silent |
| Pipe.Pipe.ClosedCallback | fdselect_pipe.c:88-103 | makes one report exactly when no event is waited for, and without a callback closes both sockets once for it |
| Pipe.Pipe.Close | fdselect_pipe.c:19-31 | both descriptors leave the selector, and the sockets are closed once when asked |
| Pipe.Pipe.Run | fdselect_pipe.c:106-331 | after any sequence of handler calls the selector can make, with any answers of the kernel, the invariant holds: no report while anything is waited for, one when the pipe is closed, or two after a write error, and without a callback as many closings of the sockets; a closed pipe stays closed and silent |
| Pipe.ShutdownAfterDelivery | fdselect_pipe.c:303-325 | a sending side is shut down at most once, and without write errors exactly when the other stream has ended and every octet of it was sent |
| Pipe.ClosedIsComplete | fdselect_pipe.c:33-43 | without write errors the pipe is closed, and was reported so once, if and only if both streams ended and arrived whole |
| Pipe.ResetReportsTwice | fdselect_pipe.c:200-327 | a concrete connection reset whose pipe reports CLOSED twice and closes its sockets twice |
| Pipe.UnfinishedIsArmed | fdselect_pipe.c:167-203 | a direction with anything left to do is registered with the selector under its own handler |
| SendList.SendList.FlushHead | sendlist.c:122-160 | by the answer of the kernel: -1 exactly for an error, which would-block is for a shutdown only, 1 exactly when octets of the entry remain after would-block or a partial write, 0 exactly when it is finished; the octets taken are out, and the entry is advanced by them, or shifted and freed once |
| SendList.SendList.Flush | sendlist.c:117-174 | return value, octets sent and queue left are those the answers of the kernel lead to, and write-select is on exactly when 1 is returned |
| SendList.FlushExactly | sendlist.c:117-174 | the answers take some entries whole and at most a part of the next: 0 exactly when all are gone, -1 exactly when the next answer is an error, 1 exactly when octets of that entry remain, less by what the answer took |
| SendList.FlushConserves | sendlist.c:117-174 | octets that go out followed by those that stay are those that were queued, for any answers |
| SendList.QueueFits | sendlist.c:63-83 | every entry of a valid queue lies within its data, as the two lemmas above ask |
| SendList.SendList.Send | sendlist.c:63-83 | the entry is queued behind all others, the queue is flushed by the answers of the kernel, and the queue invariant holds |
| SendList.SendList.Close | sendlist.c:27-39 | every entry ever queued has been freed exactly once, in order |
| SendList.NothingLostOrReordered | sendlist.c:117-174 | octets accepted followed by what is still queued are everything ever queued, in order |
| SendList.HeadSent | sendlist.c:129-150 | advancing the head over any number of accepted octets keeps the queue right |
| SendList.HeadDropped | sendlist.c:150-165 | an entry is dropped only when all of it is out; a shutdown comes after exactly the data queued before it |
| SendList.ShutdownsAfterEarlierData | sendlist.c:98-102 | each shutdown request is carried out after exactly the octets queued before it |
| TcpStream.DiffOfNums | netpkt.c:718-721 | the signed 32-bit difference of two sequence numbers is the true distance within 2^31, across wrap-around |
| TcpStream.SegmentKeepsStream | ipconntrack.c:411-476 | for every segment but a SYN within 2^31, empty ones anywhere included, the queue stays a contiguous run of the stream ending at the octet expected next if and only if the segment is not one octet ahead, or the octet in front of its payload happens to be the missing one |
| TcpStream.SynKeepsStream | ipconntrack.c:438-458 | a repeated SYN leaves the queue right if and only if its data ends before the octet expected, or the stream repeats itself there; a bare one always does |
| TcpStream.AckAfterFin | ipconntrack.c:449-463 | the empty acknowledgement after a FIN appends one foreign octet to the finished stream |
| TcpStream.FinIsNotCounted | ipconntrack.c:449-463 | a concrete connection where that happens |
| TcpStream.FirstSegment | ipconntrack.c:438-447 | a queue opened by a data segment follows the stream from that segment on |
| TcpStream.FirstSyn | ipconntrack.c:438-447 | a queue opened by a bare SYN follows the stream from its first octet |
| TcpStream.SynData | ipconntrack.c:438-458 | a SYN with data is followed if and only if there is no data; otherwise its first octet is lost |
| TcpStream.StreamIsContiguous | ipconntrack.c:411-476 | in any order of arrival of overlapping, repeated or reordered segments and repeated SYNs the buffer is one contiguous run of the stream and the number expected is start plus length modulo 2^32 |
| TcpStream.ConnectionIsContiguous | ipconntrack.c:411-476 | the same for a whole connection from an empty queue: opened by a bare SYN the buffer begins with the stream, opened by a data segment with that segment |
| ConnTrack.IpConn.TrackState | ipconntrack.c:261-323 | counters, flags and state of a connection after a packet, and how far the packet is from the segment expected |
| ConnTrack.IpConn.TrackStream | ipconntrack.c:411-476 | the chosen queue takes the packet, flags record a missed SYN or a future segment, and the difference is returned |
| ConnTrack.IpConn.Count | ipconntrack.c:285-311 | the counters of one side after a packet, and the packet's distance from the segment expected |
| ConnTrack.RetryIsDistance | ipconntrack.c:292-309 | that difference is the true distance in the sender's stream, so it is zero exactly for the octet expected |
| ConnTrack.ExpectedNext | ipconntrack.c:292-309 | the number expected next of a sender is the one behind a SYN or behind a segment in place, and stays for one out of place |
| ConnTrack.IpConnTrack.TrackPkt | ipconntrack.c:127-259 | the table and the connection returned are those the specification attributes the packet to, in place |
| ConnTrack.IpConnTrack.ConnDelete | ipconntrack.c:502-508 | exactly the one connection leaves the table |
| ConnTrack.AttributionEffect | ipconntrack.c:127-259 | a packet changes at most one connection, by one packet, with exactly one direction flag relative to the first sender; FIRST marks exactly new connections |
| ConnTrack.EveryRunOk | ipconntrack.c:127-259 | in every run no two connections have mirrored distinct endpoints and each connection's two counters sum to the packets attributed to it |
| ConnTrack.FlowReachesOneConnection | ipconntrack.c:174-234 | all packets between the endpoints of a live connection, in either direction, reach that connection with the right direction |
| ConnTrack.ConnectionsStay | ipconntrack.c:502-508 | a connection stays until it is deleted and is touched only by its own packets |
| ConnTrack.FlowIsCounted | ipconntrack.c:285-311 | over any run without its deletion, a connection's counters grow by exactly the packets of its flow |
| ConnHistory.EveryConnRemembers | ipconntrack.c:127-259 | in every run from an empty table, queue, packet and octet counts of each side of a live connection are those of the tracked packets sent from that endpoint since it was created, it is closed exactly when one of them had FIN or RST, and local as its endpoints are |
| ConnHistory.BuffersAreStreams | ipconntrack.c:127-476 | each of the two buffers of a live connection is one contiguous run of the stream of its own sender, whatever the other side and other connections send in between |
| ConnHistory.LaterFields | ipconntrack.c:430-447 | the window of a queue is that of its last TCP packet, its acknowledgement that of the last that acknowledges, its SYN number that of the first |
| ConnHistory.NoneAcked | ipconntrack.c:430-447 | the acknowledgement is zero until one comes |
| ConnHistory.DatagramsInOrder | ipconntrack.c:466-476 | of UDP packets a queue holds the payloads that were to be buffered, in order, and nothing else |
| ConnHistory.BufferingOnlyBuffers | ipconntrack.c:466-476 | whether a packet is buffered matters to the buffer alone |
| ConnHistory.LastIsReported | ipconntrack.c:143-476 | the flags of a packet are exactly its sender, whether it made the connection, its local ends, a missed SYN before the first TCP packet of its side, and a gap in front of it |
| ConnHistory.LiveExactly | ipconntrack.c:127-259 | a connection is live exactly if it was and is not the one deleted, or a tracked packet from its client finds none between its endpoints |
| ConnHistory.StepTouches | ipconntrack.c:127-259 | a packet advances the side of its sender in the one connection between its endpoints and nothing else |
| ConnHistory.TrackRun | ipconntrack.c:127-259 | the tracker object over any run holds the table of that run |
| GrowArray.Array.Get | array_inline.c:22-31 | the element at an index counted from the start, or from the end when negative; null when out of range |
| GrowArray.AtCounts | array_inline.c:22-31 | index 0 is the first element, -1 the last, and out of range is everything beyond the count in either direction |
| GrowArray.Array.Add | array.c:86-117 | the contents grow by zeroed elements at the end and keep the old ones, whether or not memory moves |
| GrowArray.Array.RemoveIdx | array.c:129-148 | the contents lose the given run of elements and the tail closes up in order; indices out of range change nothing |
| GrowArray.RemovedIs | array.c:129-148 | the run given is removed, or all from its first element on when the length is not positive or too large, counted from either end |
| GrowArray.RemovableExactly | array.c:129-148 | the indices RemoveIdx takes are exactly those in range and those for which array_get, given the index with the count added, finds nothing |
| GrowArray.FindsOutOfRange | array.c:129-148 | a concrete array and index out of range where an element is found |
| GrowArray.Bsearch | array.c:286-327 | on a sorted array: the first equal element, else the last smaller one, -1 exactly when all are greater |
| Hash.Table.constructor | hash.c:28-41 | an empty map with the given number of buckets, or 17 |
| Hash.Table.Get | hash.c:161-188 | finds the node of a key exactly when the map has the key, with the map's value |
| Hash.Table.Put | hash.c:123-159 | the map afterwards maps equal keys to the new value and all others as before; sizes follow the growth rule, with three times the bucket count computed as an int |
| Hash.Table.Remove | hash.c:329-332 | the map afterwards lacks exactly the keys equal to the one given |
| Hash.Table.Free | hash.c:190-201 | exactly the given node leaves the table |
| Hash.Table.Resize | hash.c:238-271 | the same nodes, each in bucket hash modulo the new count, and each copied once |
| Hash.Table.Grow | hash.c:128-134 | growing changes no lookup, and happens exactly when the node count exceeds three times the bucket count as an int has it |
| Hash.Table.Foreach | hash.c:203-226 | visits the nodes in order up to the first nonzero result; afterwards the map is the old one without exactly the keys of the nodes freed |
| Hash.Table.Traverse | hash.c:203-226 | the two loops: exactly the freed nodes have left the table |
| Hash.VisitsOnce | hash.c:203-226 | the traversal order holds every node of the table exactly once and nothing else |
| Hash.MapWithout | hash.c:203-226 | removing a set of nodes removes exactly their keys from the map |
| Hash.SameNodesSameMap | hash.c:238-271 | tables with the same nodes stand for the same map however many buckets they have |
| Hash.LookupIsHolds | hash.c:161-188 | a node held in the table gives the value of every key equal to its own, given only that equal keys have equal hashes |
| Hash.ResizeNext | hash.c:228-236 | the next size is one more than the next power of two, also where doubling overflows an int |
| Hash.GrowthIsAmortised | hash.c:123-159 | from 17 buckets every run of puts and removals in which no put finds more than 2^29+1 buckets ends with 2^k+1 buckets, at most three nodes a bucket plus one, and at most three nodes copied for each put |
| Hash.GrowthExactly | hash.c:131 | a run has 2^k+1 buckets all along if and only if no put finds more than 2^29+1 buckets |
| Hash.FewPutsAreFine | hash.c:131 | no run with at most 1610612741 puts has such a put, whatever it removes |
| Hash.GrowthFails | hash.c:131 | 1610612741 puts of new keys, then any number of removals, after which one more put leaves 2^30+2 buckets |
| Hash.EveryPutCopies | hash.c:131 | from 715827883 to 1431655765 buckets every put resizes and copies all nodes, however few |
| Hash.AddedKey | hash.c:136-157 | adding a node for a new key changes the map at keys equal to it only |
| Hash.RemovedKey | hash.c:190-201 | removing a node changes the map at keys equal to its own only |
| Checksum.FoldIsExact | netpkt.c:593-599 | two folds give the exact one's-complement sum for every total of 31 bits |
| Checksum.ByteOrderIndependent | netpkt.c:578-599 | the checksum octets stored are the same on little- and big-endian machines, odd lengths included |
| Checksum.OrdersCongruent | netpkt.c:578-590 | the sums of the two byte orders differ by the factor 256 modulo 65535 and vanish together |
| Checksum.CksumIn | netpkt.c:578-590 | the loop adds up the words of the buffer, a last odd octet filled with zero, without overflow |
| Checksum.WordSumIsWeight | netpkt.c:578-590 | the sum is that of the octets weighed by their place in 16-bit words |
| Checksum.TransportMeans | netpkt.c:622-677 | the field holds the checksum computed exactly when segment and pseudo header as they stand add up to a multiple of 65535, and it is not all ones |
| Checksum.HeaderMeans | netpkt.c:602-619 | the same of the header |
| Checksum.NoOverflow | netpkt.c:602-677 | no sum of a legal packet reaches the sign bit of an int |
| Checksum.AdjustIsRecompute | netpkt_inline.c:4-15 | the incremental update for one address equals recomputation, whenever another term of the sum is not zero |
| Checksum.AdjustRepresents | netpkt_inline.c:4-15 | the same for a field that may hold negative zero |
| Checksum.RewriteIsRecompute | netpkt_inline.c:20-40 | a TCP field right for the old addresses is adjusted to exactly the recomputed one; a UDP field too, with zero stored as 0xFFFF |
| Checksum.RewriteKeepsCheck | netpkt_inline.c:20-40 | after the rewrite the stored field agrees with the packet in its new form; for UDP it compares equal exactly when the sum is not zero |
| Checksum.RewriteKeepsError | netpkt_inline.c:20-40 | whatever stood in the field, it is right after the rewrite if and only if it was right before |
| Checksum.RewriteAddsUp | netpkt_inline.c:20-40 | a receiver finds the packet right after the rewrite if and only if it would have before |
| Checksum.UnsummedUdp | netpkt_inline.c:31-35 | a UDP packet without a checksum gets a nonzero one, right only if its sum happened to be zero |
| Checksum.Pkt.CksumIp | netpkt.c:602-619 | the header sum, with the packet left as it was |
| Checksum.Pkt.CksumTransport | netpkt.c:622-677 | the sum over pseudo header and segment, with the segment left as it was |
| Checksum.Pkt.CksumSet | netpkt.c:679-691 | both checksums become right: the words of the header, and those of pseudo header and segment, add up to a positive multiple of 65535; nothing changes but octets 10 and 11 of the header and 16 and 17 of a TCP or 6 and 7 of a UDP segment |
| Checksum.Pkt.CksumCheck | netpkt.c:694-716 | -1 exactly when the header does not add up or its field is all ones, else -2 or -3 exactly when the same is true of a TCP or UDP segment behind its pseudo header, else 0; the packet stays as it was |
| Checksum.Pkt.AdjustIpSrcDst | netpkt_inline.c:20-40 | addresses, header checksum and transport field become the specified ones, at octets 10 to 19 of the header and 16 and 17 or 6 and 7 of the segment only; the header adds up, and the segment adds up exactly if it did before |
| TcpOptions.OptNext | netpkt.c:258-296 | one step of the enumeration: type and data of the next option and a position strictly further on, or the end |
| TcpOptions.OptionLaidOut | netpkt.c:258-296 | kind, length of the whole and data are enumerated as one option in front of the others, for every length the octet can hold |
| TcpOptions.BrokenLength | netpkt.c:273-284 | a length that is too small, too large for the area, or negative as a char ends the enumeration |
| TcpOptions.OneOctetOptions | netpkt.c:258-296 | no-operation and end of list take one octet |
| TcpOptions.RemoveSack | netpkt.c:929-952 | the option area has every SACK-permitted option blanked, at the same length, and 1 is returned exactly when there was one |
| TcpOptions.BlankedOptions | netpkt.c:929-952 | what a receiver enumerates afterwards, no-operations aside, is the original with exactly the options of type 4 deleted |
| LList.List.AddAfter | llist.h:42-62 | the node stands right behind the given one, or first; forward and backward pointers, the null in front and the tail agree with the sequence |
| LList.List.Insert | llist.h:64-68 | the node becomes the first |
| LList.List.Append | llist.h:70-74 | the node becomes the last |
| LList.List.Remove | llist.h:76-92 | exactly the node leaves the sequence |
| LList.List.ToTail | llist.h:94-99 | the node moves to the end, the others keep their order |
| LList.List.Forward | llist.h:30-34 | the walk along next meets the sequence |
| LList.List.Backward | llist.h:36-40 | the walk along prev from the tail meets the reverse of it |
| Opt.QuotedEnc | opt.c:105-166 | succeeds exactly when the quoted text leaves three characters, and then nothing of it is cut |
| Opt.QuotedExactly | opt.c:95-98 | the words quoted are those with one of the six characters in them |
| Opt.CatOne | opt.c:56-80 | one more word behind a blank, quoted when it must be, or -1 when there is no room; where a NUL is stored behind the room, and otherwise that nothing is; the buffer need only hold what is stored |
| Opt.OptCat | opt.c:39-93 | for strings, numbers and nulls: succeeds if and only if the whole line fits, and then the buffer holds all of it; stores behind len exactly where stated, and needs a buffer longer than len only then |
| Opt.PrintsTwo | opt.c:56-93 | a blank stands between two words, quotes around one that needs them, and a newline behind the last |
| Opt.FittingStaysInside | opt.c:56-80 | a call that succeeds stores nothing behind len |
| Opt.OverrunBounds | opt.c:66-76 | what is stored behind len is less than twelve characters behind it |
| Opt.FailureCanOverrun | opt.c:76 | a concrete call that stores a NUL behind len |
| Opt.NumberBounds | opt.c:66-69 | a printed int has at most eleven characters, none of which needs quotes |
| Opt.DecNatValue | opt.c:66-69 | the printed digits have the value of the number |
| Opt.IntValue | opt.c:66-69 | a printed int has its value, negative ones behind a minus sign |
| Opt.QuotedDec | opt.c:168-240 | decodes one argument in its own buffer: the write position never passes the read position, unread text is untouched |
| Opt.Str2Argv | opt.c:242-257 | the arguments found replace the text in its buffer, each with its NUL, at the offsets returned, with one more NUL behind them; that NUL goes one place behind the NUL of the text exactly when the text is single-spaced, and nothing else there changes; the text is read to its NUL |
| Opt.ArgumentAt | opt.c:242-257 | each argument stands at its offset with its NUL, one behind the other |
| Opt.PackedLength | opt.c:242-257 | the arguments and their NULs never take more than the text and its NUL, and take all of it if and only if the text has no quotes and single blanks only between visible characters |
| Opt.OneLetterOverruns | opt.c:254 | a concrete text whose last NUL is stored behind its own |
| Opt.ReadsPastNul | opt.c:181-250 | in memory with anything behind the NUL of a text, reading stops at that NUL if and only if the text does not end in an unfinished escape between quotes |
| Opt.LoneBackslashReadsOn | opt.c:203-219 | a quote and a backslash: reading passes their NUL and takes in the character behind it |
| Opt.CatThenSplit | opt.c:39-257 | a printed line split in the same buffer gives exactly the argument list, when it and its arguments are not empty |
| Opt.RoundTrip | opt.c:39-257 | an argument list survives printing and splitting if and only if it is non-empty without empty arguments, or is one empty argument |
| Opt.ArgvOfCat | opt.c:39-257 | in general what comes back are the non-empty arguments, or one empty one |
| Opt.EscapeRoundTrip | opt.c:120-145 | every character but NUL survives escaping |
| Opt.EscapesAre | opt.c:132-145 | the six characters escaped and their escapes, in both directions |
| Opt.ScanWord | opt.c:168-240 | a printed word followed by a blank is read back whole |
| HttpText.Strdup | http.c:81-103 | the text without blanks around it and carriage returns inside it, or nothing for a single character |
| HttpText.DupTight | http.c:88-92 | tight text comes through unchanged if and only if it is not a single character |
| HttpText.DupBetweenBlanks | http.c:81-103 | any text between blanks comes out up to its NUL without its carriage returns, or as nothing if it is a single character |
| HttpText.CrVanishes | http.c:98 | a carriage return anywhere is as if it were not there |
| HttpText.NulStops | http.c:99-101 | what is behind a NUL is not part of the copy |
| HttpText.SpacesAre | http.c:88-92 | the six characters that are stripped |
| HttpText.SettledStays | http.c:201 | a number whose end is in sight converts to the same characters whatever follows |
| HttpText.UnsettledMoves | http.c:201 | a number neither settled nor saturated gets another int value from a zero or a one behind it |
| HttpText.SaturatedStays | http.c:201 | a number that one more digit takes out of range of unsigned long, and that reads as -1, reads as -1 whatever follows |
| HttpText.NinesSaturate | http.c:201 | twenty nines or more at the end of the buffer are such a number |
| HttpText.VisibleSettles | http.c:199-202 | a visible character before the blank that ends the field settles the number |
| HttpText.DecimalValue | http.c:201 | a decimal number in range is converted to its own value |
| HttpText.HexConverts | http.c:201 | 0x or 0X and the hexadecimal digits of a number in range are converted to it |
| HttpText.NumberStops | http.c:201 | a number ends in front of the first character that is no digit of its base: 0 to 9 in a decimal one, 0 to 7 in an octal one, 0 to 9 and a to f of either case in a hexadecimal one |
| HttpText.OctalConverts | http.c:201 | a zero and the octal digits of a number in range are converted to it |
| HttpText.SignsConvert | http.c:201 | a plus sign changes nothing, and a minus sign gives the complement to 2^64, which as an int is the negative number |
| Http.RoundProgress | http.c:131-305 | every round consumes the character or moves to a state that will, so the loop halts although it steps back |
| Http.NamesAre | http.c:288 | the characters of a header name |
| Http.StableExactly | http.c:105-337 | a complete or failed result, with all fields, positions and the value of the response code, is the same for every extension of the buffer if and only if the text handed to strtoul, if there is one, is a settled number or a saturated one |
| Http.StableResult | http.c:105-337 | one extension of such a buffer: the same result, and for a settled number even the same characters converted |
| Http.UnstableCode | http.c:199-202 | every other buffer has an extension by a single zero or one with another result |
| Http.CodeOfInput | http.c:199-202 | the response code comes from the one text handed to strtoul, or stays unset when there is none |
| Http.FieldInFront | http.c:199-202 | strtoul is handed the code field, the blank or newline that ends it, and everything behind it |
| Http.RequestsAreStable | http.c:105-337 | results without a response code survive every extension |
| Http.VisibleCodeSettles | http.c:199-202 | a response whose code field holds a visible character is settled, so its result survives every extension unchanged |
| Http.PrefixIncomplete | http.c:307-314 | a proper prefix of a complete header is incomplete when its own response code is settled or saturated |
| Http.RequestPrefixIncomplete | http.c:307-314 | every proper prefix of a complete request header is incomplete |
| HttpRoundTrip.ParsePrinted | http.c:105-337 | a printed request with any headers, values folded over several lines among them, either line ending and anything behind it is parsed to the end of its header with all its words |
| HttpRoundTrip.RequestRoundTrip | http.c:105-337 | printing and parsing gives operation, address, version and headers back if and only if no word is a single character |
| HttpRoundTrip.ParsePrintedReply | http.c:105-337 | a printed response with or without a message, with any headers and anything behind it, is parsed to the end of its header with its version, code, message and headers, a message of one character aside |
| HttpRoundTrip.EmptyCodeIsUnstable | http.c:199-202 | a concrete response that is an error, with an extension that is complete |
| HttpParser.HttpHeader.Parse | http.c:105-337 | returns 1 with the header, its fields, content and total length, 0 with everything cleared, or minus the state of the error with its position |
| HttpParser.HttpHeader.SetLengths | http.c:322-334 | content length, content type and total length of a complete header |
| HttpParser.HttpHeader.Switch | http.c:150-304 | one pass through the switch is one specified round |
| HttpParser.KeyvalGet | http.c:64-73 | the value looked up |
| HttpParser.LookupFirst | http.c:64-73 | the lookup gives the value behind the first key that matches without regard to case, and nothing when none does |
| HttpContent.CaseIgnored | http.c:66 | keys are the same exactly when each character is the same or the other case of the same letter |
| HttpContent.LookupPrinted | http.c:61-73 | the lookup in a printed message gives the value of the first header spelled that way in any mixture of cases |
| HttpContent.LengthIsRead | http.c:322-331 | the content length of printed headers is the number in the first content-length header if it has two digits or more, else 0 |
| HttpContent.ParseRequest | http.c:105-337 | for a printed request with such headers: return value, header, content and total length, content type, operation and its code, address and version |
| HttpContent.ParseReply | http.c:105-337 | the same for a printed response, with the value of its code |
| HttpErrors.ParseRefused | http.c:120-310 | -3, -4, -8 and -10 are returned for a line of one word, a response without code, a request line that goes on behind its version, and a bad header name |
| HttpErrors.WordAlone | http.c:168-169 | a line that ends behind its first word is refused there |
| HttpErrors.BehindVersion | http.c:247-251 | a request line that goes on behind its version is refused there |
| HttpErrors.BadName | http.c:287-290 | a header name with another character, or without a colon, is refused there |
| HttpLayout.GapsDoNotMatter | http.c:148-166 | more blanks wherever the parser stands between words, and blank lines in front of the first, change nothing but positions, in complete, incomplete and failed results alike |
| HttpLayout.ParseShort | http.c:221-230 | a printed request line without version, with any headers and anything behind them, is parsed to the end of its header |

## Left out

- DnsMessage.Dns.UnpackName: a label that runs over the end of the source is an error here as there, but the source copies what lies behind the end first.
- DnsRoundTrip.NameRoundTrip: that a reference goes to a sound entry within 14 bits is its condition; NameReadsExactly says what happens otherwise.
- Whole resource records: dns_rr_pack advances twice over name-valued data (dns.c:351-355 and 377-378), so names are stated, not records; queries, replies and resolution built on it are not part of this model.
- DnsMessage.Dns.PackHeader: debug output.
- DnsMessage.Dns.PackName: an empty name with no room left, whose single root octet dns.c:126 stores without a room test.
- DnsProxy.Proxy.Forward: the host name kept for debugging; the thousand random numbers and the octets taken by sendto are parameters; time is a real number.
- DnsProxy.Proxy.Poll: the order in which the hash table visits its nodes is a parameter; Hash.VisitsOnce shows there is one.
- Pipe.Pipe.Run: one pipe with its own two descriptors; the user's callback does not change the pipe; malloc failures.
- SendList.SendList.Send: write and sendfile are one call that takes any prefix; a file shorter than its range is not modelled; free functions are recorded by entry number.
- TcpStream.StreamIsContiguous: segments exactly one octet ahead, which include the acknowledgement after a FIN, and SYNs with data not yet in the queue are outside it; their exact conditions are SegmentKeepsStream, AckAfterFin and SynKeepsStream.
- ConnTrack.IpConn.TrackState: time stamps, average sizes and the formatting of connections.
- GrowArray.Array.RemoveIdx: indices between -2 and -1 times the count, for which array_get adds the count a second time and the source moves memory behind the end; array_remove_ptr, which only turns a pointer into an index; array_insert, whose memmove target is right only when tail and inserted part have the same length. The comment in array.h on duplicates in a binary search differs from the code, which returns the first.
- Hash.Table.Put: an int that overflows wraps around, as it does on the usual machines; more than 2^31-1 nodes; copying of keys and values, their free functions, and allocation failure; the hash functions themselves.
- FdSelect.FdSelect.Set: descriptors are integers and handlers are values; the wait itself and the Windows variant are not part of this model.
- Checksum.Pkt.CksumSet: parsing of the packet; header and transport segment are given as two arrays of legal lengths.
- TcpOptions.OptNext: an option whose length octet lies behind the end of the area is a defect here, where the source reads one octet further.
- LList.List.Remove: the removed node keeps its own pointers, as in the source, and nothing is said about them.
- Opt.OptCat: the Perl style; the characters a failing call leaves inside its buffer, and those of a number it leaves behind it.
- Opt.QuotedDec: text that ends in an unfinished escape between quotes, which makes the source step over the NUL; ReadsPastNul says exactly when.
- Opt.Str2Argv: the same text; single-spaced text in a buffer that ends at its NUL, where the last store is outside; the noslash mode; the limit on the number of arguments, which the source does not check.
- HttpParser.HttpHeader.Parse: past the end of the buffer strtoul sees nothing; unsigned long and size_t have 64 bits. Memory pools are not part of this model.
- Encoding and decoding of CGI arguments and of URLs, the unfinished modules, services, sockets, threads and formatting functions are not part of this model.
