# OscTap, modelled and verified in Dafny

OscTap is a codec for Open Sound Control 1.0 packets with a length-prefixed stream transport. This
project models its byte-level state machines and proves that they work together:

- `OutboundPacketStream` serializes in place. Arguments grow up from the front of one buffer, type tags
  grow down from its end, and the size slots of open bundles hold a linked stack of parent offsets.
  `OutboundSpec` says what it is meant to do with a plain stack of byte strings; the class refines it;
  `OutboundTheorems` draws the conclusions for whole runs and for packet trees.
- `ReceivedMessage` and `ReceivedBundle` check once; iterators and accessors then read without checks.
  `MessageFormat` and `PacketFormat` hold the grammar and the decisions, `MessageReading` the values.
- `TryValidatePacket` and `OscPacketListener` walk nested bundles with a bounded depth. `Deliveries` says what
  a listener gets from any packet, malformed ones included, and `Faults` which fault is reported for which bytes.
- `OscStreamDeframer` cuts a byte stream into packets, whatever the chunks it arrives in; `TcpTransport`
  puts it between senders with partial writes and a server with many connections. `TcpSessions` says from the
  events alone which sessions there are and what each received.
- `EndToEnd` puts the two programs together: one clears, serializes and sends packet trees, the other serves
  its connections and dispatches what arrives.
- `WireBytes` fixes the numbers and letters of the format, so that writer and reader cannot agree on wrong ones.
- `BreakProtocol` and `TimerQueue` are the receive loops' stop protocol and periodic timers.

A pointer is an offset into a byte sequence or array (-1 for null), a throw is an error result, a machine
word is an integer with its range, and each call into the operating system is a parameter or a step that
may go any way it can. Floats are bit patterns and times are integer milliseconds. Capacities are at most
0x7FFFFFFC bytes, the library's own limit.

Nothing was executed. To verify: `dafny verify dfyconfig.toml`.

## What the code does otherwise than expected

Seven expectations turned out not to hold of the code. The model keeps the code as it is, shows an input,
and proves when the expectation does hold.

- The argument cursor can pass the tag cursor: stray arguments leave type tags behind which `BeginBundle`
  does not reset (`CursorsCanCross`). It happens exactly when the header does not fit below the stray tags
  (`CursorsOrderedIff`); no write leaves the buffer even then.
- The space checks are exact for legal use and only for it (`TightExactlyWhenProper`): a stray argument is
  refused although it would fit (`RefusedThoughItFits`).
- The space checks compute lengths in 32 bits, so a string within four bytes of 4 GiB counts as one that needs
  no room (`LengthWraps`); they decide as they should exactly if `Measured` holds (`MeasuredIff`), which is what
  `BeginMessage` and `Append` ask of their callers.
- `ComputeArrayItemCount` promises that a nested array counts as one item and counts it as none
  (`NestedArrayMiscounted`). It is right exactly if no array is nested (`CountIsDocumentedIff`).
- Re-encoding loses an integer address pattern (`IntegerAddressLost`). The address is kept, as both its readers
  see it, exactly unless it is a non-zero integer (`Normalisation`).
- After `Break()` from a packet callback the UDP loop may still fire one timer (`TimerFiresAfterBreak`). No
  callback follows exactly when no timer is due at the clock reading after the socket loop (`UdpBreakIsPromptIff`).
- After `Break()` from a packet callback the TCP loop still dispatches the other packets of the same `recv`
  (`PacketFollowsBreak`). No callback follows exactly when the breaking packet was the last of them
  (`TcpBreakIsPromptIff`); `PacketsPerRead` says how many there can be.

## Model

| member | source | states |
|---|---|---|
| Bytes.LoadStored32 | osctap/osc/OscUtilities.h:43-59 | a stored 32-bit word reads back as itself, wherever in a buffer it stands |
| Bytes.LoadStored64 | osctap/osc/OscUtilities.h:48-70 | the same for 64-bit words |
| Bytes.StoreLoaded32 | osctap/osc/OscUtilities.h:43-59 | storing a loaded word writes the same bytes back |
| Bytes.Store64 | osctap/osc/OscUtilities.h:61-70 | the byte-by-byte shifts write the two big-endian halves and nothing else |
| Bytes.RoundUp4 | osctap/osc/OscUtilities.h:73-75 | is the next multiple of four, except that the top of the 32-bit range wraps to zero |
| Osc.EncodeAligned | osctap/osc/OscOutboundPacketStream.h:153-286 | the canonical encoding of every packet has a size that is a multiple of four |
| WireBytes.BigEndian | osctap/osc/OscUtilities.h:43-59 | the most significant byte of a word comes first |
| WireBytes.CharIsSigned | osctap/osc/OscOutboundPacketStream.h:333-341 | the word written for a `char` is the signed number it is, modulo 2^32 |
| WireBytes.PaddedWithNul | osctap/osc/OscOutboundPacketStream.h:393-490 | strings and blobs are followed by NULs only, up to the next multiple of four, a string by one at least |
| WireBytes.LargestSize | osctap/osc/OscTypes.h:68-80 | the size limit is the largest multiple of four in an `int32_t` |
| WireBytes.MessageOnTheWire | osctap/osc/OscOutboundPacketStream.h:183-508 | one message with a char, a string, a blob and a bool, byte for byte |
| WireBytes.BundleOnTheWire | osctap/osc/OscOutboundPacketStream.h:153-181 | a bundle with that message, byte for byte |
| WireBytes.WordsOnTheWire | osctap/osc/OscOutboundPacketStream.h:314-361 | tag letter and bytes of an int, a float, a colour and a MIDI message |
| WireBytes.WidesOnTheWire | osctap/osc/OscOutboundPacketStream.h:363-391 | tag letter and bytes of a 64-bit int, a time tag and a double |
| WireBytes.MarksOnTheWire | osctap/osc/OscOutboundPacketStream.h:288-508 | tag letters of the arguments without data |
| OutboundSpec.StepKeepsValid | osctap/osc/OscOutboundPacketStream.h:119-286 | every granted operation, stray ones included, keeps `Size()` within the capacity and the stack well nested |
| OutboundPacketStreams.OutboundPacketStream.BeginBundle | osctap/osc/OscOutboundPacketStream.h:153-168 | the buffer after `BeginBundle` represents the specified state; a refused call changes no field and no byte |
| OutboundPacketStreams.OutboundPacketStream.EndBundle | osctap/osc/OscOutboundPacketStream.h:170-181 | the same for `EndBundle`: the element becomes part of its parent, its size in its slot |
| OutboundPacketStreams.OutboundPacketStream.BeginMessage | osctap/osc/OscOutboundPacketStream.h:183-237 | the same for `BeginMessage` and `BeginMessageN` (the former passes `strlen` bytes) |
| OutboundPacketStreams.OutboundPacketStream.EndMessage | osctap/osc/OscOutboundPacketStream.h:238-286 | the same for `EndMessage` |
| OutboundPacketStreams.OutboundPacketStream.Append | osctap/osc/OscOutboundPacketStream.h:288-508 | the same for the argument operators, inside a message or stray |
| OutboundPacketStreams.OutboundPacketStream.FoldTypeTags | osctap/osc/OscOutboundPacketStream.h:244-279 | whatever the moved arguments and the reversed tag area overlap, the result is comma, tags in insertion order, NUL padding, arguments; earlier bytes are untouched |
| OutboundPacketStreams.OutboundPacketStream.BeginElement | osctap/osc/OscOutboundPacketStream.h:511-529 | a new slot holds the parent's offset; the outermost element gets the sentinel and no slot |
| OutboundPacketStreams.OutboundPacketStream.EndElement | osctap/osc/OscOutboundPacketStream.h:530-554 | the slot gets the size, the parent's offset is restored, no other byte changes |
| OutboundPacketStreams.OutboundPacketStream.CurrentSize | osctap/osc/OscOutboundPacketStream.h:130-139 | `Size()` is right also while a message is being built, and never exceeds the capacity |
| OutboundPacketStreams.LayoutPatched | osctap/osc/OscOutboundPacketStream.h:530-554 | patching the top slot turns the layout of the open stack into that of the closed one |
| OutboundPacketStreams.MeasuredIff | osctap/osc/OscOutboundPacketStream.h:557-578 | the 32-bit space checks refuse exactly what does not fit, iff no length wraps or the check refuses all the same |
| OutboundPacketStreams.LengthWraps | osctap/osc/OscOutboundPacketStream.h:563-570 | lengths for which the check asks for no room although no buffer could hold the string |
| OutboundTheorems.SafeOnEveryRun | osctap/osc/OscOutboundPacketStream.h:119-578 | after any sequence of operations, refused ones included, size and cursors are in bounds and the arguments of an open message end below its tags |
| OutboundTheorems.CursorsOrderedIff | osctap/osc/OscOutboundPacketStream.h:153-168 | exactly when an operation moves the argument cursor past the tag cursor |
| OutboundTheorems.CursorsCanCross | osctap/osc/OscOutboundPacketStream.h:153-168 | a run that does so |
| OutboundTheorems.ChainIsStack | osctap/osc/OscOutboundPacketStream.h:511-554 | following the offsets in the buffer from the current slot visits exactly the open elements, strictly downwards, to the sentinel, which no real slot equals |
| OutboundTheorems.OpenElementsUntouched | osctap/osc/OscOutboundPacketStream.h:153-286 | no operation changes a byte of an element that stays open, its slot included |
| OutboundTheorems.EndPopsOne | osctap/osc/OscOutboundPacketStream.h:530-554 | ending an element pops one entry, leaves its exact length in its slot, and does not change `Size()` |
| OutboundTheorems.TightExactlyWhenProper | osctap/osc/OscOutboundPacketStream.h:557-578 | out-of-memory is raised exactly when the resulting `Size()` would exceed the capacity, for all capacities, iff the use is legal |
| OutboundTheorems.RefusedThoughItFits | osctap/osc/OscOutboundPacketStream.h:571-578 | a stray argument refused although the resulting size is zero |
| Faults.MisuseErrors | osctap/osc/OscOutboundPacketStream.h:153-242 | which misuse is reported when, the order of the two checks in `EndBundle` included |
| OutboundTheorems.DrivePacket | osctap/osc/OscOutboundPacketStream.h:153-508 | streaming a packet into any open element succeeds iff its encoding fits, and then adds exactly that encoding |
| OutboundTheorems.SerializesIffFits | osctap/osc/OscOutboundPacketStream.h:557-578 | a whole tree serializes iff its canonical encoding fits, and leaves exactly that encoding |
| OutboundClient.PerformAll | osctap/osc/OscOutboundPacketStream.h:119-508 | any operations in any order, carrying on after exceptions, keep the buffer representing the specified state |
| OutboundClient.Serialize | osctap/osc/OscOutboundPacketStream.h:153-508 | driving the class through a tree leaves exactly the canonical encoding in the buffer, or runs out of memory iff it does not fit |
| OutboundClient.SmallIsStreamable | osctap/osc/OscOutboundPacketStream.h:557-578 | no length wraps while streaming a packet whose encoding is within the size limit |
| MessageFormat.CheckIffIsMessage | osctap/osc/OscReceivedElements.h:648-798 | the parser accepts exactly the declarative grammar: aligned address, tag string, balanced arrays, one well-formed argument per tag, trailing bytes allowed |
| MessageFormat.Str4EndIsStr4 | osctap/osc/OscUtilities.h:107-124 | a string end is found iff the bytes up to it are blocks of which exactly the last ends in NUL |
| MessageFormat.ArgumentEndIsArgument | osctap/osc/OscReceivedElements.h:699-779 | an argument is accepted up to an offset iff the bytes up to it are well-formed data for its tag |
| MessageFormat.ArgumentAligned | osctap/osc/OscReceivedElements.h:699-779 | every branch keeps the four-byte alignment on which the unchecked searches rest |
| Faults.MessageSizeFaults | osctap/osc/OscReceivedElements.h:648-667 | the fault for each bad size, and for an address that is no block string |
| Faults.TypeTagFaults | osctap/osc/OscReceivedElements.h:669-693 | the fault for a missing comma or a type tag string without end; the two forms without arguments |
| Faults.FirstBadTag | osctap/osc/OscReceivedElements.h:695-779 | the first tag that is not all right decides: a bracket that closes nothing, or an argument with a fault |
| Faults.UnclosedArray | osctap/osc/OscReceivedElements.h:782-785 | an array still open after the last tag is reported, and only that |
| Faults.ArgumentFaults | osctap/osc/OscReceivedElements.h:699-779 | for each fault of an argument, exactly when it is reported |
| ReceivedMessages.FindStr4End | osctap/osc/OscUtilities.h:107-124 | the bounded search reads only inside the message and finds the string's end or reports none |
| ReceivedMessages.FindStr4EndUnchecked | osctap/osc/OscUtilities.h:93-103 | on a validated string the unbounded search stays inside the message and finds the same end |
| ReceivedMessages.ReceivedMessage.TryInit | osctap/osc/OscReceivedElements.h:648-798 | for any bytes and any size: the right fault, or the right members, without a read outside the message |
| ReceivedMessages.CheckArguments | osctap/osc/OscReceivedElements.h:695-785 | the loop over the tags reports the first fault, or that all arguments are well formed and the arrays closed |
| MessageReading.OffsetNext | osctap/osc/OscReceivedElements.h:435-500 | argument k+1 starts where argument k ends, and the k-th value is read at the k-th offset |
| MessageReading.CheckedParts | osctap/osc/OscReceivedElements.h:663-786 | what validation establishes for the unchecked readers |
| ArgumentIterators.ReceivedMessageArgumentIterator.Advance | osctap/osc/OscReceivedElements.h:435-500 | from tag k and its validated offset to tag k+1 and its validated offset, with every read inside the message; no move at the end |
| ArgumentIterators.ReadArguments | osctap/osc/OscReceivedElements.h:839-851 | the unchecked loop reaches the end after exactly `ArgumentCount()` steps and reads exactly the message's arguments |
| ArgumentIterators.ComputeArrayItemCount | osctap/osc/OscReceivedElements.h:373-403 | from any `[` it returns at the matching `]`, never at the NUL, with the number of plain tags directly inside |
| MessageReading.ArrayCloses | osctap/osc/OscReceivedElements.h:711-721 | on balanced tags every `[` has a matching `]` with balanced tags between |
| MessageReading.CountIsDocumentedIff | osctap/osc/OscReceivedElements.h:371-403 | the count is the documented one exactly when no array is nested |
| MessageReading.NestedArrayMiscounted | osctap/osc/OscReceivedElements.h:371-403 | a tag string on which they differ |
| PacketFormat.BundleIffFramed | osctap/osc/OscReceivedElements.h:909-955 | a bundle is accepted iff it is a header followed exactly by its framed, aligned elements: 16 + sum(4 + size) = size |
| Faults.BundleFaults | osctap/osc/OscReceivedElements.h:909-927 | the fault for each bad size and header |
| Faults.FirstBadElement | osctap/osc/OscReceivedElements.h:929-948 | after good elements, the first bad element size decides the fault |
| PacketFormat.UnreachableFaults | osctap/osc/OscReceivedElements.h:931-952 | alignment makes the "too short for elementSize" and final-mismatch rejections unreachable |
| ReceivedBundles.ReceivedBundle.TryInit | osctap/osc/OscReceivedElements.h:909-955 | for any bytes and any size: the right fault, or the right members and element count |
| ReceivedBundles.CountElements | osctap/osc/OscReceivedElements.h:929-954 | the loop over the sizes counts the elements, or reports the first fault |
| ReceivedBundles.VisitElements | osctap/osc/OscReceivedElements.h:157-193 | the unchecked element iterator visits exactly the elements and stops exactly at the end |
| PacketFormat.GateIffReadable | osctap/osc/OscReceivedElements.h:1027-1055 | the gate accepts iff the throwing read of the whole packet succeeds and bundles nest within the bound |
| Faults.GateFaultIsFirst | osctap/osc/OscReceivedElements.h:1027-1055 | what the gate reports is the first fault, depth first: everything before it reads in full and is shallow enough |
| Faults.SizeFaults | osctap/osc/OscReceivedElements.h:117-131 | the fault for each packet size |
| ReceivedBundles.TryValidatePacket | osctap/osc/OscReceivedElements.h:1027-1055 | for any bytes and any size, negative ones included, the recursive method gives the gate's answer, fault included |
| ReceivedBundles.OscPacketListener.ProcessPacket | osctap/osc/OscPacketListener.h:87-93 | for any bytes, any size and any calls of `ProcessMessage` that throw: exactly the specified messages are delivered before it returns or throws, and the nesting depth is restored |
| ReceivedBundles.OscPacketListener.ProcessBundle | osctap/osc/OscPacketListener.h:58-82 | the same for one bundle at any depth, whether a constructor or `ProcessMessage` throws; a bundle beyond the limit is ignored |
| PacketFormat.CutAtFirst | osctap/osc/OscPacketListener.h:76-81 | the calls made are those up to and including the first that throws |
| PacketFormat.CutThen | osctap/osc/OscPacketListener.h:76-93 | a throw from one element or packet ends the delivery there, otherwise the next one goes on from it |
| Deliveries.ThrowsNothingIff | osctap/osc/OscPacketListener.h:58-93 | for any bytes and any limit: nothing throws iff every bundle and message down to the limit is well formed |
| Deliveries.ThrowsNothingIffRead | osctap/osc/OscPacketListener.h:58-93 | if the limit cannot be reached, nothing throws iff the packet reads in full |
| Deliveries.DeliversUpToFault | osctap/osc/OscPacketListener.h:76-93 | on a throw exactly the messages before the first fault have been delivered, and that fault is thrown |
| Deliveries.ReachableIsAtMost | osctap/osc/OscPacketListener.h:64-65 | of a readable packet exactly the messages no deeper than the limit are delivered, in order |
| PacketFormat.DispatchReadable | osctap/osc/OscPacketListener.h:58-93 | a readable packet is delivered without a throw, and exactly down to the limit |
| PacketFormat.GatedIsDelivered | osctap/osc/OscPacketListener.h:58-93 | what passes the gate at depth D is delivered whole, each message once in depth-first order, by every listener with limit D or more |
| RoundTrip.PayloadReads | osctap/osc/OscReceivedElements.h:241-367 | every argument written is read back as itself |
| RoundTrip.MessageReads | osctap/osc/OscReceivedElements.h:648-798 | a legal message's encoding parses back to it |
| RoundTrip.ContentsRead | osctap/osc/OscReceivedElements.h:909-1055 | a legal packet's encoding reads back to the same tree, values and order |
| RoundTrip.ReadIsLegal | osctap/osc/OscReceivedElements.h:909-1055 | whatever reads in full is legal to write |
| RoundTrip.RoundTripIffLegal | osctap/osc/OscReceivedElements.h:648-1055 | a packet's encoding reads back to it iff the packet is legal and the encoding within the size limit |
| RoundTrip.WriteThenRead | osctap/osc/OscOutboundPacketStream.h:153-508 | what the serializer leaves for a packet that fits reads back to it iff it is legal, and then passes a gate iff it nests no deeper |
| RoundTrip.Normalisation | osctap/osc/OscReceivedElements.h:663-837 | re-encoding an accepted message and parsing again gives the same message iff the re-encoding is within the size limit; both address readers see the same iff the address is no non-zero integer |
| RoundTrip.IntegerAddressLost | osctap/osc/OscReceivedElements.h:835-837 | an accepted message whose integer address changes |
| RoundTrip.ParsedIsLegal | osctap/osc/OscOutboundPacketStream.h:183-286 | what parses is legal to write, and re-encodes in at most four bytes more (none more if it has type tags) |
| StreamFraming.SplitAppend | osctap/osc/OscStreamFraming.h:106-159 | splitting a stream in two goes is splitting it at once, verdict included |
| StreamFraming.SplitConserves | osctap/osc/OscStreamFraming.h:106-159 | bytes fed are the bytes of the emitted frames plus the pending ones |
| StreamFraming.SplitWithinCap | osctap/osc/OscStreamFraming.h:127-128 | emitted packets and the frame in progress are within the cap, the latter incomplete; a rejected header is above it |
| StreamFraming.PacketsPerRead | osctap/osc/OscStreamFraming.h:106-159 | one chunk completes at most one packet for its first byte and one for every four bytes after it, whatever was pending |
| StreamFraming.SplitFrames | osctap/osc/OscStreamFraming.h:63-81 | framed packets within the cap come out one by one |
| StreamFraming.HeaderHoldsSizeIff | osctap/ip/posix/TcpSocket.h:85-90 | the header sent is the payload's size iff that is below 2^32 |
| StreamFraming.FrameOscPacket | osctap/osc/OscStreamFraming.h:74-81 | header and payload, or nothing if they do not fit; no byte beyond changes |
| StreamFraming.OscStreamDeframer.Consume | osctap/osc/OscStreamFraming.h:106-159 | packets, verdict and pending bytes are those of the simple splitter on pending bytes plus chunk, over all four header and payload paths; each iteration consumes a byte |
| StreamFraming.OscStreamDeframer.Reset | osctap/osc/OscStreamFraming.h:162-167 | nothing is pending afterwards, also after a rejected frame |
| StreamFraming.ConsumeAll | osctap/osc/OscStreamFraming.h:83-89 | feeding any chunks, up to the first false, equals splitting their concatenation |
| StreamFraming.ChunkingInvariance | osctap/osc/OscStreamFraming.h:83-89 | two ways of cutting the same bytes give the same packets, verdict and rest |
| TcpTransport.TcpTransmitSocket.SendAll | osctap/ip/posix/TcpSocket.h:95-111 | over any partial writes, interruptions and errors the wire gets a prefix of the data, as long as the counts `::send` returned add up to, all of it iff it returns normally; no call after the last byte or an error |
| TcpTransport.TakesThen | osctap/ip/posix/TcpSocket.h:85-111 | that account carries over from buffer to buffer; after one that did not go out whole there is nothing more |
| TcpTransport.TcpTransmitSocket.Send | osctap/ip/posix/TcpSocket.h:85-90 | the same for a frame, whose header holds the low 32 bits of the size |
| TcpTransport.TcpTransmitSocket.SendEach | osctap/ip/posix/TcpSocket.h:85-111 | the same for packets in a row, header and payload each accounted for |
| TcpTransport.TcpListeningReceiveSocket.AcceptConnection | osctap/ip/posix/TcpSocket.h:246-256 | a new descriptor, reused or not, starts a fresh session; nothing else changes |
| TcpTransport.TcpListeningReceiveSocket.ServiceConnection | osctap/ip/posix/TcpSocket.h:258-283 | one read extends one session, delivers what it completes, and closes it at the end or on an oversized frame |
| TcpTransport.TcpListeningReceiveSocket.Serve | osctap/ip/posix/TcpSocket.h:190-232 | any interleaving of accepts, reads and closes keeps the invariant and does what the server without deframers does |
| TcpSessions.ServesExactly | osctap/ip/posix/TcpSocket.h:190-283 | over every list of events the sessions are those the events describe: started by an accept of a descriptor not in use, given every chunk read from it, ended by the first end of stream or oversized header |
| TcpSessions.StartsExactly | osctap/ip/posix/TcpSocket.h:246-256 | an accept starts a session iff no session still uses the descriptor; so a closed one may come back |
| TcpSessions.SessionSnoc | osctap/ip/posix/TcpSocket.h:258-283 | one more event: what it adds to a session, and whether it ends it |
| TcpSessions.RunServer | osctap/ip/posix/TcpSocket.h:179-283 | a server from its start has exactly these sessions, and its listener is called for each with exactly the packets of what it received |
| TcpTransport.PrefixSplits | osctap/osc/OscStreamFraming.h:106-159 | of a prefix of a stream of frames exactly the complete frames come out |
| TcpTransport.DeliveredInOrder | osctap/ip/posix/TcpSocket.h:258-278 | end to end: a session's packets are exactly, in order, the fully arrived frames its own peer sent |
| TcpTransport.OversizedIsCutOff | osctap/ip/posix/TcpSocket.h:276-277 | a peer that announces an oversized frame has its earlier packets delivered and is then cut off |
| TcpTransport.TcpListeningReceiveSocket.Deframe | osctap/ip/posix/TcpSocket.h:269-277 | feeding one connection's deframer object calls the listener with what the read completes, and disturbs no other connection |
| EndToEnd.EncodedIsDelivered | osctap/osc/OscPacketListener.h:58-93 | a legal packet within the limits, once serialized, is delivered whole and without a throw |
| EndToEnd.TreesArrive | osctap/ip/posix/TcpSocket.h:85-283 | from any part of what a sender of packet trees put on its wire, exactly the messages of the complete frames arrive, in order, whatever other connections do |
| EndToEnd.SerializeAll | osctap/osc/OscOutboundPacketStream.h:119-508 | one stream, cleared before each packet, leaves the canonical encoding of each |
| EndToEnd.SendTrees | osctap/ip/posix/TcpSocket.h:85-111 | the wire gets a prefix of the frames of the encodings, as much as the results of `::send` account for, all of them iff the sender finishes |
| EndToEnd.HandOver | osctap/ip/posix/TcpSocket.h:271-274 | packets handed to the listener with their `(int)` sizes are dispatched one after the other, up to the first throw |
| EndToEnd.SendAndReceive | osctap/ip/posix/TcpSocket.h:85-283 | both programs: after any partial sends and any server events, if the chunks read on a session are a prefix of what was sent, the listener has been given exactly the messages of the packets that have fully arrived |
| BreakProtocol.NoLostStop | osctap/ip/posix/TcpSocket.h:179-241 | in every reachable state, flag set and runner in `select` means a byte in the pipe or a caller about to write one; the pipe read never blocks |
| BreakProtocol.NeverStuck | osctap/ip/posix/TcpSocket.h:190-216 | a runner that has been told to stop can go on, or a caller can and then it can |
| BreakProtocol.StopsSoon | osctap/ip/posix/UdpSocket.h:391-458 | once the flag is set it leaves `Run` within a bounded number of its own steps, and makes at most the callbacks of the read in progress and one timer's, whatever others do |
| BreakProtocol.BreakBeforeRun | osctap/ip/posix/TcpSocket.h:180-190 | a break made before `Run` makes it return without a callback |
| BreakProtocol.ReturnsOnlyForACause | osctap/ip/posix/TcpSocket.h:190-232 | over every run without a stop request, a `select` failure or an exception, `Run` does not return, whatever bytes earlier breaks left in the pipe |
| BreakProtocol.FlagClearAfterExit | osctap/ip/posix/TcpSocket.h:180-187 | however a run ends, the flag is clear right after it |
| BreakProtocol.SocketsThenTimers | osctap/ip/posix/UdpSocket.h:432-457 | without a stop request the loop over n sockets handles each of them, calls back for each packet, and, over UDP, reads the clock once after that and calls back for each timer due then |
| BreakProtocol.UdpPassFiresAllDue | osctap/ip/posix/UdpSocket.h:444-457 | that is one timer callback for each due entry of the queue |
| BreakProtocol.PassWithoutBreak | osctap/ip/posix/UdpSocket.h:444-457 | the timer pass makes exactly the callbacks counted for it, in queue order |
| BreakProtocol.WholePass | osctap/ip/posix/UdpSocket.h:391-457 | a pass of the main loop calls `select` once; if interrupted it does nothing else, otherwise sockets and timers are gone through exactly once |
| BreakProtocol.PassDrains | osctap/ip/posix/TcpSocket.h:210-214 | no byte in the pipe is lost, and a pass that finds one reads exactly one |
| BreakProtocol.FailureLeaves | osctap/ip/posix/UdpSocket.h:408-422 | after a `select` failure or a throw out of a callback there is no further callback and `Run` returns |
| BreakProtocol.AfterOwnBreak | osctap/ip/posix/UdpSocket.h:432-457 | after a packet callback's own break exactly the remaining packets of the same read follow and, over UDP, one timer iff one is due at the next clock reading |
| BreakProtocol.TcpBreakIsPromptIff | osctap/ip/posix/TcpSocket.h:227-231 | over TCP nothing follows iff the breaking packet was the last of its read |
| BreakProtocol.UdpBreakIsPromptIff | osctap/ip/posix/UdpSocket.h:444-451 | over UDP nothing follows iff the timer queue is empty or its front is not due |
| BreakProtocol.TimerBreakIsPrompt | osctap/ip/posix/UdpSocket.h:447-451 | nothing follows a timer's own break |
| BreakProtocol.PassAfterBreak | osctap/ip/posix/UdpSocket.h:444-457 | the timer pass with the flag set makes exactly the callback counted for it, none iff the front is not due |
| BreakProtocol.TimerFiresAfterBreak | osctap/ip/posix/UdpSocket.h:438-457 | a run from the start in which a timer fires after the break |
| BreakProtocol.PacketFollowsBreak | osctap/ip/posix/TcpSocket.h:271-277 | a run from the start in which a packet is dispatched after the break |
| TimerQueue.FireDue | osctap/ip/posix/UdpSocket.h:444-457 | a completed pass calls each due timer exactly once, in queue order, and no other, and advances exactly those; a broken one stops at once, without advancing the timer that broke it |
| TimerQueue.AdvancedOnSchedule | osctap/ip/posix/UdpSocket.h:444-457 | a timer fired k times is next due at start + delay + k * period |
| TimerQueue.StaysOnTime | osctap/ip/posix/UdpSocket.h:444-457 | no timer fires for an instant that has not come |
| TimerQueue.SetUp | osctap/ip/posix/UdpSocket.h:376-383 | the queue starts as a sorted permutation of the timers, each due its initial delay after the start |
| TimerQueue.RunTimers | osctap/ip/posix/UdpSocket.h:376-457 | over every run on a monotone clock the queue is sorted, complete and without drift, and fires each timer as often as that timer by itself would |
| TimerQueue.KeepsUp | osctap/ip/posix/UdpSocket.h:444-457 | with readings no further apart than the period, a timer's count is the number of due instants that have come |

## Left out

- OutboundPacketStreams.OutboundPacketStream.Append: the overload for a character array of known length is not modelled apart; without inner NULs it writes the bytes of the string overload.
- OutboundPacketStreams.OutboundPacketStream.BeginMessage: nothing is said of a string so long that its length wraps and the check lets it pass; the C++ code is undefined there (`MeasuredIff`).
- TcpTransport.TcpTransmitSocket.SendEach: a sender stops at its first failure; what a peer would make of frames sent after half a frame is not modelled.
- BreakProtocol.NoLostStop: `Break()` called from a thread other than the runner's is not modelled; `AsynchronousBreak()` is what other threads call.
- EndToEnd.SendAndReceive: the packets of one connection are handed to the listener after the server's events rather than in the middle of each read; a listener that throws out of a read ends `Run` (`BreakProtocol`).
- TimerQueue.RunTimers: `std::sort` is modelled by what it guarantees; ties come in any order.
- The timeout that the UDP loop computes for `select`: it decides only when `select` returns, which here may be any time.
- Sockets, `select`, name resolution, multicast and socket options: operating system calls; only their possible results appear.
- The win32 backends: the same protocols over another wait primitive.
- Floating-point meaning of float and double arguments: they are copied bit by bit.
- A plain `char` argument is taken as signed, as on most platforms; the reader drops the sign bytes either way.
- The typed `As...` accessors and `ReceivedMessageArgumentStream`: a tag comparison in front of the unchecked accessors.
- Allocation failure, a full break pipe, a `send` that keeps returning 0, and a sink that throws out of `Consume`.
- The pretty printer, `OwnedMessage`, `MessageMappingOscPacketListener`, the Android bridge, demos and compatibility headers.
