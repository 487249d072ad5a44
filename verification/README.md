# Verification of the virtualization framework's device and firmware layer

This project models, in Dafny 4.11, the data and protocol logic of a hypervisor's device layer
and proves what it is for. `dafny verify dfyconfig.toml` checks all of it.

The seven parts follow the program's structure.

- **Network relay** (`src/network/network.cpp`). `InternetChecksum` and `FrameCodec` hold the
  checksum loops and the frame encoders over byte arrays, against RFC 1071 and a decoder.
  `Dhcp` is the option scan and the reply. `TcpRelay` is a labelled transition system: a frame
  arrives, a connect completes, host bytes are read, the host closes, and every atomic
  fetch-add, load and send of the connect and I/O threads is a step of its own.
  `TcpRelayProofs`, `TcpStreams` and `TcpNumbering` prove what holds over every run,
  `TcpAnswers` says which frames answer a segment and which bytes reach the host, `TcpThreads`
  what a connection's own threads send, `TcpClosing` what a FIN does to the guest's stream and `TcpHostFin` what one does to the
  host's, and `TcpFinRuns` exhibits runs in which that is not what one would expect.
  `TcpStack` has the classes `TcpConn` and `Stack`, whose methods update the connection fields
  and tables in place and are proved to take exactly the transition system's steps.
- **Flattened device tree** (`src/firmware/arm64/dtb.cpp`). `FdtFormat` is a parser written from
  sections 5.2 to 5.6 of the Devicetree Specification v0.4. `StringTable`, `FdtRoundTrip` and
  `FdtBuilder` prove that it undoes the builder, and `DeviceTree` that `DTB::generate` builds
  the intended tree. `DeviceTreeReading` reads a tree as a kernel does, and `DeviceTreeFacts`
  says what this one tells it.
- **virtqueues and virtio-blk** (`src/virtio/block.cpp`). `SplitRing` is the ring protocol over
  whole runs, shared by all devices; `Virtqueue` is a device's queue over guest memory;
  `BlockDevice` and `BlockProofs` are the block device and its scatter/gather round trip, and
  `BlockStatus` what the guest reads back of a request.
- **virtio-gpu** (`src/virtio/gpu.cpp`). `GpuBacking` reads fragmented guest memory,
  `GpuTransfer` copies rectangles, `GpuCommands` is the command set, `GpuDrain` and `GpuRuns`
  are whole drains and whole runs, `GpuHistory` tells the device's state and frames from the list
  of commands alone, and `GpuDevice` is the device updated in place.
- **virtio-input** (`src/virtio/input.cpp`): `InputEvents`, `InputDevice`, `InputReports`.
- **virtio-net** (`src/virtio/net.cpp`): `NetChains`, `NetTransmit`, `NetReceive`, `NetDevice`.
- **Logger** (`src/core/logger.cpp`): `ConsoleLog`, `LoggerState`.

Each class method that changes state is proved equal to a function of the old state; the
theorems are then about those functions, over every input or every run.

## Conditions the code's claims rest on

These appear as preconditions, because the code relies on them without a check of its own.

- Descriptor indices in the rings are below the queue size, and the driver negotiated the full
  queue size, since slots are taken modulo that constant (src/virtio/block.cpp:117, 221).
- A buffer lies wholly inside or wholly outside RAM: translation looks at its first byte only
  (src/core/vm.cpp:180-184). For the device tree, that buffer is the blob itself.
- The bytes written to the host socket are a prefix of the guest's stream only until a write
  fails: a failing write ends its own segment's loop (src/network/network.cpp:523) and later
  segments are still written, so the host's stream then has a hole.
- Rings are disjoint from data buffers, and the available ring and descriptor table stay fixed
  during one drain.
- An emitted TCP frame fits the 2048-byte buffer and a UDP payload 1500 bytes
  (src/network/network.cpp:124-126, 181).
- The rows of a GPU transfer lie in the resource's host buffer; they always do when
  width * height * 4 < 2^64, and `GpuTransfer.InBoundsIff` says exactly when. Backing entries are
  whole buffers.
- `static_cast<off_t>(sector) * 512` overflows a signed type from sector 2^54 on
  (src/virtio/block.cpp:158, 176), which C++ leaves undefined. The product is assumed to wrap.
- A write to a socket whose write side was shut returns an error; the signal it may raise is not
  part of this model.
- `FdtBuilder::build` is called once: it appends to the buffers it emits (src/firmware/arm64/dtb.cpp:84-86).

## Where the code does less than one would expect

Each item has the exact condition and an instance.

- A FIN shuts the host socket's write side at once (src/network/network.cpp:506), before the data
  of the same segment is written at lines 518-526: that data is acknowledged and never delivered.
  `TcpClosing.DeliveredUnlessOnFin` says that, with a willing host, this is the only data ever
  missing; `TcpFinRuns.DataOnFinIsNeverWritten` is the run, for any data.
- An out-of-order FIN advances `g_nxt` all the same (src/network/network.cpp:502-509), so the
  acknowledgement then covers a byte that was not taken in. `TcpStreams.FinAcknowledged` and
  `TcpClosing.FinCompletesStream` give the condition, for a step and for a whole run;
  `TcpFinRuns.FinAfterLostData` is the run. `TcpClosing.AcksCoverTaken` says that acknowledgements
  stay within what was taken in if and only if every FIN came in order.
- The handler takes a number for the FIN it answers with (src/network/network.cpp:514) whatever
  the I/O thread has read and not yet numbered (lines 357-361): those bytes, and any read later,
  are sent behind the FIN, where a receiver discards them. `TcpHostFin.FinCutsHostStream` says
  that the receiver gets everything read if and only if there are none;
  `TcpFinRuns.DataAfterFin` is the run, for any data.
- The block device advances by `len / 512` sectors for a segment (src/virtio/block.cpp:164, 182),
  though a driver may split its data anywhere. `BlockProofs.OutEffectIff` says that data gets to
  its place if and only if every segment with bytes after it is whole sectors;
  `BlockProofs.UnevenSplitOverlaps` covers a split such as 100 and 412 bytes at sector 1, where
  both segments are written at offset 512.
- A reservation of (0, 0) ends the reservation block, so a parser sees only what precedes it;
  and a blob of 2^32 bytes or more has a wrapped total size, and does not parse.
  `FdtRoundTrip.BlobRoundTrip` covers both; `FdtRoundTrip.ZeroReservationHidesLater` and
  `FdtRoundTrip.HugeBlobDoesNotParse` are instances.
- `RESOURCE_CREATE_2D` computes its buffer size in `size_t`: `GpuCommands.CreateSizes` says when
  that is width * height * 4, `GpuTransfer.InBoundsIff` when transfers stay in the buffer;
  `GpuTransfer.HugeResourceOutOfBounds` is an empty buffer with a transfer that does not, and
  `GpuCommands.WrappedResourceOverrun` the three commands that lead to it, with the bytes copied.
- The transmit gather loop of virtio-net does not end on a cyclic chain;
  `NetChains.EndsIffAcyclic` says that those are the only ones, `NetChains.SelfLinkNeverEnds` is one.
- `ip_cksum` adds in 32 bits: `InternetChecksum.ExactIff` says when that is the checksum of
  RFC 1071, `InternetChecksum.LongBufferSpoils` is a buffer of 131076 bytes for which it is not.
  Every call in the code is for a header of 20 bytes or a message of less than 65536
  (src/network/network.cpp:144, 231), for which it is.
- A processor's number is printed in decimal, while a unit address is hexadecimal
  (src/firmware/arm64/dtb.cpp:170): `DeviceTreeFacts.CpuUnitsAgreeIff` says that they agree up to
  ten processors. The machine allows eight (src/core/vm.cpp:43).
- A block request for a sector of 2^54 or more is served at another offset, if at all:
  `BlockDevice.FileOffsetExact`, and `BlockDevice.FarSectorIsFirst` for sector 2^55.

## Model

| member | source | states |
|---|---|---|
| InternetChecksum.AddWords | src/network/network.cpp:42-49 | the word loop adds the little-endian words of the buffer, odd tail included, modulo 2^32 |
| InternetChecksum.Fold | src/network/network.cpp:42-49 | the fold loop ends, with the one's-complement value of its input |
| InternetChecksum.CanonOfWordSum | src/network/network.cpp:42-49 | folding a plain integer sum gives the end-around-carry sum of RFC 1071 |
| InternetChecksum.IpCksum | src/network/network.cpp:42-49 | the complement of the one's-complement sum if and only if the 32-bit wraps cancel, so always up to 131074 bytes; the wrapped value otherwise |
| InternetChecksum.ExactIff | src/network/network.cpp:42-49 | the result is RFC 1071's if and only if the wraps cancel modulo 65535; below 4 GiB, if and only if the sum does not wrap |
| InternetChecksum.LongBufferSpoils | src/network/network.cpp:42-49 | 131076 bytes of 0xff get a wrong checksum |
| InternetChecksum.TransportCksum | src/network/network.cpp:51-67 | equals the RFC 1071 checksum of the pseudo-header followed by the segment |
| InternetChecksum.CksumOfTwo | src/network/network.cpp:51-67 | one checksum carried over two buffers is the checksum of their concatenation |
| InternetChecksum.StoredChecksumVerifies | src/network/network.cpp:42-49 | storing the checksum in its zeroed field makes the checksum of the whole zero |
| InternetChecksum.ByteOrderIndependence | src/network/network.cpp:42-49 | summing in host order and storing in host order equals summing and storing in network order |
| FrameCodec.EmitIp | src/network/network.cpp:121-148 | lays out exactly the Ethernet and IPv4 frame for the payload, header checksum included |
| FrameCodec.SendTcp | src/network/network.cpp:150-174 | emits exactly the frame of the segment with its transport checksum stored |
| FrameCodec.SendUdp | src/network/network.cpp:176-194 | emits exactly the datagram's frame; a zero checksum goes out as all ones (RFC 768) |
| FrameCodec.IpRoundTrip | src/network/network.cpp:610-636 | decoding an emitted frame recovers sender, protocol, addresses and payload |
| FrameCodec.TcpRoundTrip | src/network/network.cpp:384-397 | decoding recovers ports, sequence and acknowledgement numbers, flags and data of any segment that fits |
| FrameCodec.UdpRoundTrip | src/network/network.cpp:317-324 | decoding recovers ports and data of any datagram that fits |
| FrameCodec.TransportVerifies | src/network/network.cpp:51-67 | a receiver summing pseudo-header and segment gets zero, also after the UDP zero rule |
| FrameCodec.EmittedChecksumsVerify | src/network/network.cpp:121-194 | both checksums of every emitted TCP and UDP frame verify, and a UDP checksum is never zero |
| FrameCodec.IpLayout | src/network/network.cpp:121-148 | every byte of an emitted Ethernet and IPv4 header but its checksum, by position: receiver, sender, type, lengths, no fragmentation, TTL 64, protocol, addresses |
| FrameCodec.TcpLayout | src/network/network.cpp:150-174 | every field of an emitted TCP frame by position: ports, numbers, flags, full window, no urgent data, the data |
| FrameCodec.UdpLayout | src/network/network.cpp:176-194 | every field of an emitted UDP frame by position: ports, length, data |
| FrameCodec.IpOptionsSkipped | src/network/network.cpp:610-636 | a frame with any IP options and any Ethernet padding decodes to its payload |
| FrameCodec.TcpOptionsSkipped | src/network/network.cpp:384-397 | a segment with any TCP options decodes to its data |
| Dhcp.ScanMessageType | src/network/network.cpp:245-256 | the scan loop ends with the value of the recursive scan |
| Dhcp.ScanInvertsEncoding | src/network/network.cpp:245-256 | on any well-formed option list, pads included, ended by 255 or the buffer, the scan finds the last option 53's first byte, or 0 |
| Dhcp.HandleDhcp | src/network/network.cpp:239-291 | answers DISCOVER with an OFFER and REQUEST with an ACK, broadcast from port 67 to 68, and nothing else |
| Dhcp.BuildReply | src/network/network.cpp:260-288 | all 300 bytes of the reply: the client's identity echoed, the addresses, the cookie, the options, their end, and zeros |
| Dhcp.PutReplyOptions | src/network/network.cpp:270-286 | the reply's options are exactly the six of the server, encoded |
| Dhcp.ReplyScansBack | src/network/network.cpp:245-290 | the same scan over the built reply reads back its kind |
| Dhcp.AnswerOnTheWire | src/network/network.cpp:260-290 | the answering frame, byte by byte: a broadcast from port 67 to 68 with the client's identity, the offered address, and the lease's server, time, netmask, router and name server |
| TcpRelayProofs.NextKeepsInv | src/network/network.cpp:348-578 | every step keeps the invariant: claims tile from the ISN, sent data are the claimed data, `g_nxt` counts what was taken in, launches follow the state |
| TcpRelayProofs.RunKeepsInv | src/network/network.cpp:348-578 | the invariant holds in every reachable state, under every interleaving |
| TcpStreams.LifecycleStep | src/network/network.cpp:404-486 | a connection's state moves only one stage forward, and its I/O thread is launched exactly at the step into ESTABLISHED, with a host socket |
| TcpStreams.DuplicateSynIgnored | src/network/network.cpp:404-451 | a repeated SYN leaves the live connection of its key as it was |
| TcpStreams.ClaimsDisjoint | src/network/network.cpp:360-372 | sequence numbers claimed for SYN, data and FIN are pairwise distinct up to 2^32 in all |
| TcpStreams.ClaimsCover | src/network/network.cpp:360-372 | every number from the ISN up to `h_nxt` is claimed |
| TcpStreams.HostStreamReassembles | src/network/network.cpp:348-382 | the data segments sent, put together by sequence number, with what is still in flight, are the bytes read from the host |
| TcpStreams.GuestStreamSafety | src/network/network.cpp:490-538 | under loss, duplication and reordering, the bytes taken in are a prefix of the guest's stream, those written to the host are a prefix of them until a host write fails, and every acknowledgement counts bytes and FINs taken in by then |
| TcpStreams.NothingLost | src/network/network.cpp:518-526 | what was taken in is given up only by a write that fails |
| TcpStreams.FinAcknowledged | src/network/network.cpp:502-509 | a FIN is acknowledged at its own number if and only if it is in order |
| TcpStreams.OutOfOrderFinOverAcknowledges | src/network/network.cpp:502-509 | the step of one FIN a thousand numbers too early: the number expected moves on, nothing is taken in |
| TcpClosing.FinCloses | src/network/network.cpp:490-514 | over every run a connection takes at most one FIN, and takes in nothing after it |
| TcpClosing.DeliveredUnlessOnFin | src/network/network.cpp:502-526 | with a willing host, all that was taken in is written or still can be if and only if no FIN-bearing segment had in-order data; otherwise exactly that data is missing |
| TcpClosing.FinCompletesStream | src/network/network.cpp:490-509 | a FIN numbered after its stream's last byte comes in order if and only if the whole stream has been taken in with it |
| TcpClosing.AcksCoverTaken | src/network/network.cpp:490-538 | when FINs come numbered after their streams, `g_nxt` covers only what was taken in if and only if every FIN came in order, and while it does no acknowledgement covers more |
| TcpHostFin.FinCutsHostStream | src/network/network.cpp:348-514 | over every run, a receiver that takes what is numbered below the first FIN gets everything read from the host if and only if nothing was read and unnumbered at that FIN, or read later |
| TcpFinRuns.DataOnFinIsNeverWritten | src/network/network.cpp:502-533 | for any data, a run from the start in which it comes with the FIN, is acknowledged, and none of it is written though the host is willing |
| TcpFinRuns.FinAfterLostData | src/network/network.cpp:502-533 | for any stream below 2^32 bytes, a run in which its data is lost, its FIN arrives, and the answer covers the first byte |
| TcpFinRuns.DataAfterFin | src/network/network.cpp:348-382 | for any data of at most one read, a run in which a FIN arrives after the data was read and before it is numbered, and the data is sent behind the answering FIN |
| TcpNumbering.SegmentsCarryTheirClaims | src/network/network.cpp:348-443 | every segment sent on a connection is numbered by a range claimed for it |
| TcpThreads.ReadIsSent | src/network/network.cpp:348-368 | bytes read from the host leave in one PSH+ACK segment with the numbers of that moment, and the thread reads on |
| TcpThreads.HangUpOwesFin | src/network/network.cpp:351-370 | a hang-up of a connection that was not stopped makes the thread owe a FIN |
| TcpThreads.OwedFinGoesOut | src/network/network.cpp:370-382 | an owed FIN goes out as FIN+ACK, takes one number, and is the thread's last segment |
| TcpThreads.StopEndsThread | src/network/network.cpp:351-382 | the thread of a stopped connection reads nothing more once it looks, and sends no FIN |
| TcpThreads.ConnectSendsSynAck | src/network/network.cpp:413-443 | a connect that succeeds sends SYN+ACK numbered 0x40000000 that acknowledges the guest's SYN |
| TcpThreads.SegmentsCarryTheirFlags | src/network/network.cpp:348-538 | over every run, data carries exactly PSH+ACK, everything else exactly SYN, ACK, SYN+ACK or FIN+ACK, and resets RST |
| TcpThreads.ReadingEnds | src/network/network.cpp:348-382 | over every run, nothing is read from the host once the I/O thread has left its loop, so its own FIN comes behind everything read |
| TcpThreads.FailureRemoves | src/network/network.cpp:419-449 | a failed dial and a port forward that gives up take exactly their connection out of the map |
| TcpThreads.RetiredIsReaped | src/network/network.cpp:380-402 | a retired connection is out of the map after the next frame, unless that frame opens its key anew |
| TcpStack.TcpConn.AcceptSynAck | src/network/network.cpp:471-486 | moves the fields exactly as the transition system's SYN+ACK step, and answers with the ACK it names |
| TcpStack.TcpConn.AcceptAck | src/network/network.cpp:471-486 | moves the fields exactly as the step into ESTABLISHED |
| TcpStack.TcpConn.Receive | src/network/network.cpp:490-514 | data and FIN processing of a segment: new fields, the write side shut, bytes to write, and the reply due |
| TcpStack.Stack.ReapDone | src/network/network.cpp:401-402 | removes every finished key and empties the queue |
| TcpStack.Stack.Open | src/network/network.cpp:404-418 | a SYN of an unknown key adds one connecting connection, whose answers go to the SYN's sender |
| TcpStack.Stack.Locked | src/network/network.cpp:399-516 | the locked part of the frame handler is one frame step, with exactly the answer due and its receiver |
| TcpStack.Stack.OnConnection | src/network/network.cpp:463-514 | the part for a known key is that same step |
| TcpStack.Stack.WriteAll | src/network/network.cpp:518-526 | the partial-write loop writes exactly what the host's calls take before the first that fails, and the rest is lost; nothing is written once the write side is shut; all as host steps |
| TcpStack.Stack.HandleTcp | src/network/network.cpp:384-539 | a whole call is the frame step, the write loop and the answer: the state it leaves is determined by what the host takes, and exactly the answer due goes to the guest of the connection, or to the sender |
| TcpStack.Stack.GuestTx | src/network/network.cpp:610-636 | a raw frame leaves the state of the segment it decodes to, or none, and sends exactly the answer due, to the same guest |
| TcpStack.GuestFrameEvent | src/network/network.cpp:384-397 | a guest's encoded segment is the event of that segment on its key |
| TcpAnswers.DataIsAcknowledged | src/network/network.cpp:493-537 | data gets one ACK frame with the number after it when in order, and else with the number still expected |
| TcpAnswers.FinIsAcknowledged | src/network/network.cpp:493-532 | a FIN gets one FIN+ACK frame that acknowledges one number more than the data taken in |
| TcpAnswers.SynAckIsAcknowledged | src/network/network.cpp:471-480 | a SYN+ACK gets one ACK frame with the number after it |
| TcpAnswers.UnknownIsReset | src/network/network.cpp:453-460 | a segment of no connection gets one RST frame numbered as its ack number |
| TcpAnswers.OthersAreNotAnswered | src/network/network.cpp:404-538 | a SYN, an RST, a bare ACK and anything before the handshake get no frame at once |
| TcpAnswers.ResetRemoves | src/network/network.cpp:465-469 | an RST stops its connection, takes it out of the map, and touches no other |
| TcpAnswers.SynOpensConnection | src/network/network.cpp:404-416 | a SYN for a new key opens a connection that expects the number after it |
| TcpAnswers.AckEndsHandshake | src/network/network.cpp:471-486 | the ACK that ends a handshake, and nothing else, launches the I/O thread |
| TcpAnswers.LoopWritesCapacity | src/network/network.cpp:518-526 | the write loop takes the sum of the calls before the first failing one, up to what there is |
| TcpAnswers.DataIsWritten | src/network/network.cpp:490-526 | in every reachable state, in-order data without a FIN is written up to the first failing call and exactly that much; all of it, with nothing lost, when the calls take that much |
| TcpAnswers.NothingElseIsWritten | src/network/network.cpp:490-526 | out-of-order data and the data of a FIN are not written |
| StringTable.InternIsSound | src/firmware/arm64/dtb.cpp:110-119 | adding a name keeps every recorded offset, and each denotes its name |
| StringTable.InterningRun | src/firmware/arm64/dtb.cpp:110-119 | over any run, offsets returned stay valid, equal names share one and distinct names have distinct ones |
| FdtFormat.ParseItems | src/firmware/arm64/dtb.cpp:42-60 | the structure-block parser of section 5.4, which stays within the block |
| FdtRoundTrip.ParseItemsInverse | src/firmware/arm64/dtb.cpp:44-60 | parsing the tokens of any tree gives the tree back and stops right after it |
| FdtRoundTrip.ParseReservationsInverse | src/firmware/arm64/dtb.cpp:80-87 | the reservation block reads back up to its first (0, 0) |
| FdtRoundTrip.BlobRoundTrip | src/firmware/arm64/dtb.cpp:84-104 | a built blob parses to its tree and reservations if and only if it is shorter than 2^32 |
| FdtRoundTrip.ZeroReservationHidesLater | src/firmware/arm64/dtb.cpp:80-87 | a (0, 0) reservation hides any later one from a parser |
| FdtRoundTrip.HugeBlobDoesNotParse | src/firmware/arm64/dtb.cpp:84-104 | the blob of a tree with one property of 2^32 - 1 bytes does not parse |
| FdtBuilder.BalancedIffTree | src/firmware/arm64/dtb.cpp:44-60 | the balanced call sequences are exactly those that print a tree |
| FdtBuilder.EncodeTree | src/firmware/arm64/dtb.cpp:44-60 | what a tree's calls append is the tree's encoding |
| FdtBuilder.PushBe32 | src/firmware/arm64/dtb.cpp:31-34 | appends the four big-endian bytes |
| FdtBuilder.PushBe64 | src/firmware/arm64/dtb.cpp:35-38 | appends the eight big-endian bytes |
| FdtBuilder.Pad4 | src/firmware/arm64/dtb.cpp:39-40 | appends zeros up to the next multiple of four |
| FdtBuilder.Builder.StrOff | src/firmware/arm64/dtb.cpp:110-119 | the offset of an interned name, old or new |
| FdtBuilder.Builder.BeginNode | src/firmware/arm64/dtb.cpp:44-48 | the structure block is the encoding of the calls so far, aligned, with this one added |
| FdtBuilder.Builder.EndNode | src/firmware/arm64/dtb.cpp:49 | likewise for the end of a node |
| FdtBuilder.Builder.Prop | src/firmware/arm64/dtb.cpp:51-60 | likewise for a property and its interned name |
| FdtBuilder.Builder.Reserve | src/firmware/arm64/dtb.cpp:80-82 | adds one reservation and leaves the structure alone |
| FdtBuilder.Builder.Build | src/firmware/arm64/dtb.cpp:84-104 | for any balanced run of calls, the emitted blob parses to exactly the tree and reservations the calls described, and its size is determined by them |
| DeviceTree.IntendedIsDeviceTree | src/firmware/arm64/dtb.cpp:124-276 | the intended tree has one root and puts properties before subnodes everywhere, for any vCPU count, command line and initrd |
| DeviceTree.GenerateBlob | src/firmware/arm64/dtb.cpp:124-276 | the blob parses to the intended tree |
| DeviceTree.Generate | src/firmware/arm64/dtb.cpp:124-291 | the blob is stored whole at its load address and the address recorded, or memory is left alone, none recorded and failure returned |
| DeviceTreeFacts.BlobTellsKernel | src/firmware/arm64/dtb.cpp:124-279 | the blob reserves its load area and parses to one root node that tells a kernel the machine's RAM, its ramdisk and command line, unit addresses that agree with `reg`, and every virtio device |
| DeviceTreeFacts.MemoryIsRam | src/firmware/arm64/dtb.cpp:147-158 | the tree has one memory node, whose `reg` in the root's widths is the machine's RAM address and size |
| DeviceTreeFacts.ChosenIsRight | src/firmware/arm64/dtb.cpp:136-145 | `/chosen` has the command line, and the ramdisk's first address with an end that is its size further on, modulo 2^64, or neither |
| DeviceTreeFacts.CpusAreNumbered | src/firmware/arm64/dtb.cpp:160-178 | `/cpus` has one node for each virtual processor, numbered from 0, started through the PSCI node's `hvc` |
| DeviceTreeFacts.PlatformIsWired | src/firmware/arm64/dtb.cpp:186-225 | the serial port, the clock and the interrupt controller are at their addresses with their interrupts |
| DeviceTreeFacts.VirtioIsWired | src/firmware/arm64/dtb.cpp:227-274 | each virtio device the machine has, and no other, is at its address with its interrupt |
| DeviceTreeFacts.SlotsApart | src/firmware/arm64/dtb.cpp:227-274 | no two devices share registers or an interrupt |
| DeviceTreeFacts.UnitAddressesAgree | src/firmware/arm64/dtb.cpp:136-274 | every unit address below the root is the first address of its node's `reg` |
| DeviceTreeFacts.CpuUnitsAgreeIff | src/firmware/arm64/dtb.cpp:168-177 | those of the processors agree if and only if there are at most ten |
| DeviceTreeFacts.ReferencesResolve | src/firmware/arm64/dtb.cpp:132-224 | every `interrupt-parent` and `clocks` cell is the phandle of exactly one node |
| GuestMemory.WholePart | src/core/vm.cpp:180-184 | the rest of a whole buffer translates like the buffer |
| SplitRing.RingSafety | src/virtio/block.cpp:116-228 | over every run across counter wraps, a drain's work is exactly what is published and not taken, and nothing returned is overwritten before it is read |
| SplitRing.ExactlyOnce | src/virtio/block.cpp:116-228 | every published head comes back exactly once and in order, and `used.idx` equals `last_avail` |
| SplitRing.BacklogDecreases | src/virtio/block.cpp:116-228 | every pass shortens the distance from `last_avail` to `avail.idx`, modulo 2^16 |
| SplitRing.ReturnedEmpty | src/virtio/net.cpp:171-178 | each buffer of a drain that returns everything empty is in the used ring, in order, with its head and length 0 |
| Virtqueue.Queue.Return | src/virtio/block.cpp:220-228 | the commit is one return step of the ring protocol |
| BlockDevice.FileOffsetExact | src/virtio/block.cpp:158-176 | the file offset is sector * 512 if and only if that fits a signed 64-bit number |
| BlockDevice.FarSectorIsFirst | src/virtio/block.cpp:158-176 | sector 2^55 is served from the image's start |
| BlockDevice.Block.CollectChain | src/virtio/block.cpp:119-129 | the chain array is the linked chain cut off at 64 |
| BlockDevice.Block.DoRead | src/virtio/block.cpp:150-166 | the IN loop leaves memory, status and total as the segment recursion says, failing segments included |
| BlockDevice.Block.DoWrite | src/virtio/block.cpp:168-184 | the OUT loop leaves disk, status and total as the segment recursion says, failing segments included |
| BlockDevice.Block.DoGetId | src/virtio/block.cpp:192-203 | the buffer gets the identifier, cut off or zero-filled |
| BlockDevice.Block.DoRequest | src/virtio/block.cpp:134-209 | every request kind and error condition, as one outcome |
| BlockDevice.Block.ServeOne | src/virtio/block.cpp:116-229 | one pass: chain, request, status byte, used element; what they are is in `BlockStatus` |
| BlockDevice.Block.ProcessRq | src/virtio/block.cpp:106-233 | the drain ends with nothing left to do and the whole state as the drain function says |
| BlockProofs.OutEffect | src/virtio/block.cpp:168-184 | an OUT writes the segments' concatenation to the disk at sector * 512 and changes nothing else |
| BlockProofs.OutEffectIff | src/virtio/block.cpp:168-184 | on a disk that differs in the range's last byte, an OUT puts its data in place if and only if every segment with bytes after it is whole sectors |
| BlockProofs.UnevenSplitOverlaps | src/virtio/block.cpp:168-184 | two segments, the first below a sector and the second no shorter: the second is written over the first and the request succeeds |
| BlockProofs.InEffect | src/virtio/block.cpp:150-166 | an IN fills the segments with the disk's bytes and leaves the rest of memory alone |
| BlockProofs.OutThenIn | src/virtio/block.cpp:131-228 | an IN with any split returns the bytes an OUT with any other split wrote; the OUT touches no disk byte outside its range |
| BlockProofs.ServedOutThenIn | src/virtio/block.cpp:116-229 | the same through two passes of the drain; both status bytes read 0, and the IN's used element has length total + 1 |
| BlockStatus.StatusIsDeserved | src/virtio/block.cpp:131-219 | the status byte the guest reads, for every request: 0 after a request that succeeded, 2 for an unknown type, 1 for a bad header, too few descriptors, an unmapped segment, a read past the end or a read-only image |
| BlockStatus.ReadStatus | src/virtio/block.cpp:150-166 | an IN succeeds if and only if every segment is in RAM and filled from the disk at its offset |
| BlockStatus.WriteStatus | src/virtio/block.cpp:168-184 | an OUT succeeds if and only if the image is writable and every segment is in RAM and stored at a file position |
| BlockStatus.IdentifierIsRead | src/virtio/block.cpp:192-203 | after GET_ID the buffer holds the text of the identifier, cut off or zero-filled, and the used length is its length and one |
| BlockStatus.OthersOnlyAnswer | src/virtio/block.cpp:131-219 | only an OUT changes the disk; only an IN and a GET_ID change memory beyond the status byte |
| BlockStatus.RequestFollowsLinks | src/virtio/block.cpp:119-129 | the request is its head and what each descriptor links to, up to 64 |
| BlockProofs.DrainReturnsAll | src/virtio/block.cpp:116-229 | a drain is a run of exactly as many return steps as there are requests outstanding |
| GpuBacking.ReadBacking | src/virtio/gpu.cpp:161-191 | the destination gets exactly the overlapping slice of the concatenated entries, unmapped ones as zeros, nothing else changes, and the overlap's size is returned |
| GpuBacking.ReadOfPrefix | src/virtio/gpu.cpp:171 | entries past the range's end add nothing, so stopping early is right |
| GpuBacking.SplitEntry | src/virtio/gpu.cpp:161-191 | splitting an entry in two leaves the linear backing, and so every read, unchanged |
| GpuBacking.FlatByte | src/virtio/gpu.cpp:161-191 | byte k of entry i of the backing is the guest's byte at the entry's address plus k, or zero where it is not in RAM |
| GpuTransfer.RowsInBounds | src/virtio/gpu.cpp:317-336 | below 2^64 bytes every destination row lies in the host buffer, even when 32-bit sums wrap |
| GpuTransfer.InBoundsIff | src/virtio/gpu.cpp:317-336 | for any size: all transfers stay in the buffer if and only if the last pixel does |
| GpuTransfer.HugeResourceOutOfBounds | src/virtio/gpu.cpp:317-336 | a 2^31 by 2^31 resource has an empty buffer, and the transfer of its first pixel lies outside it |
| GpuTransfer.TransferToHost | src/virtio/gpu.cpp:321-340 | the row loop leaves the buffer as the row recursion says |
| GpuTransfer.TransferIsPixelwise | src/virtio/gpu.cpp:307-343 | each byte of the clipped rectangle becomes the backing byte at offset + (row - y) * stride + (col - x) * 4 + b, and every other byte stays |
| GpuTransfer.CoveringTransfersCopyAll | src/virtio/gpu.cpp:307-343 | transfers with linear offsets that together cover the resource leave its buffer equal to the backing |
| GpuCommands.DecodeInvertsEncode | src/virtio/gpu.cpp:74-134 | every command in the wire layout is read back as it was sent, memory entries included |
| GpuCommands.CommandsOnTheWire | src/virtio/gpu.cpp:221-385 | each command's type number and where its fields lie, word by word |
| GpuCommands.Exec | src/virtio/gpu.cpp:221-385 | every command keeps one buffer of width * height * 4 bytes, in `size_t`, and a whole backing for each resource |
| GpuCommands.CreateSizes | src/virtio/gpu.cpp:250 | a new resource's buffer is width * height * 4 bytes if and only if that fits in `size_t` |
| GpuCommands.HugeResourceIsEmpty | src/virtio/gpu.cpp:250 | a 2^31 by 2^31 resource gets an empty buffer |
| GpuCommands.WrappedResourceOverrun | src/virtio/gpu.cpp:238-343 | create, attach and transfer are all accepted for a resource whose size wraps to nothing, and the first pixel's four bytes are copied into an empty buffer |
| GpuCommands.Handle | src/virtio/gpu.cpp:195-386 | a response never exceeds its buffer, and resources stay sound |
| GpuCommands.ResponseMeans | src/virtio/gpu.cpp:203-219 | the response type tells success, display info and missing resource apart, and exactly a fenced success carries the fence back |
| GpuCommands.DisplayInfoMeans | src/virtio/gpu.cpp:223-236 | GET_DISPLAY_INFO reports one enabled mode, the display's width and height, word by word |
| GpuDrain.DrainStages | src/virtio/gpu.cpp:390-439 | a drain stages exactly its flushes of the then-current scanout, in order, with the pixels of that moment |
| GpuDrain.ServeNext | src/virtio/gpu.cpp:399-435 | one pass keeps the table sound and returns one buffer |
| GpuDrain.ResponseInBuffer | src/virtio/gpu.cpp:399-435 | the driver finds in the last writable buffer the type that tells its command's fate and its fence, the used length is the response's, and no other byte changes |
| GpuDrain.TargetIsLast | src/virtio/gpu.cpp:407-421 | the response goes to the last writable buffer the walk visits |
| GpuDrain.ReadableConcat | src/virtio/gpu.cpp:407-421 | the request is what the readable buffers hold, one after another |
| GpuRuns.NextStep | src/virtio/gpu.cpp:475-559 | a register write leaves nothing staged and gives the callback exactly the flushes of its drain |
| GpuRuns.TraceIsFlushes | src/virtio/gpu.cpp:475-559 | over every run, the callback's trace is the in-order list of flushes, nothing is staged while the lock is free, and every buffer has its size in `size_t` |
| GpuRuns.StatusAfter | src/virtio/gpu.cpp:507-520 | FEATURES_OK is refused for a driver that asks for what is not offered |
| GpuRuns.InterruptStays | src/virtio/gpu.cpp:475-559 | a raised interrupt is cleared by acknowledging it or a reset, and by nothing else |
| GpuRuns.NotifyInterrupts | src/virtio/gpu.cpp:475-559 | a drain raises the interrupt and leaves no work; another notification does nothing |
| GpuHistory.RunFollowsHistory | src/virtio/gpu.cpp:195-559 | over every run, the scanout, the resources with their sizes and backing, and the callback's trace are what the list of commands and resets says |
| GpuHistory.ExecIsLawful | src/virtio/gpu.cpp:238-379 | after any command: the scanout is the last SET_SCANOUT of scanout 0, unless that resource was removed since; a resource exists from its creation to its removal, with the last creation's sizes and the entries attached and not detached since |
| GpuHistory.FlushShowsScanout | src/virtio/gpu.cpp:286-305 | a flush of the existing, non-empty resource on scanout 0 stages one frame of its pixels and sizes, and nothing else does |
| GpuHistory.RepliesFollowHistory | src/virtio/gpu.cpp:195-385 | flush, transfer and attach fail exactly for resources that the history does not have |
| GpuDevice.Gpu.Create | src/virtio/gpu.cpp:238-257 | the table has a new zeroed resource under the id, in a buffer of its own |
| GpuDevice.Gpu.Receive | src/virtio/gpu.cpp:307-343 | only the named resource's buffer changes, by the transfer |
| GpuDevice.Gpu.Dispatch | src/virtio/gpu.cpp:221-385 | each command changes the table, scanout and staged frames exactly as its specification says |
| GpuDevice.Gpu.HandleCommand | src/virtio/gpu.cpp:195-386 | state and response bytes in guest memory after one command |
| GpuDevice.Collect | src/virtio/gpu.cpp:402-421 | the walk gathers the readable buffers and the last writable one, up to 64 or the first unmapped |
| GpuDevice.Gpu.ProcessControlq | src/virtio/gpu.cpp:390-439 | the drain leaves device, memory and rings as the drain function says |
| GpuDevice.Gpu.DeliverFrames | src/virtio/gpu.cpp:550-558 | the staged frames go to the callback in order and none stays |
| GpuDevice.Gpu.Reset | src/virtio/gpu.cpp:521-528 | writing status 0 empties the table, scanout and staged frames |
| GpuDevice.Gpu.Write | src/virtio/gpu.cpp:475-559 | a register write is one step of the machine |
| InputEvents.FlushDelivers | src/virtio/input.cpp:152-189 | a flush writes the oldest events in order, one for each usable buffer, until either runs out; unusable buffers cost none; `used.idx` counts them |
| InputEvents.StepWrites | src/virtio/input.cpp:163-183 | what the driver reads from a used buffer is the oldest event |
| InputEvents.EventHistory | src/virtio/input.cpp:129-189 | the backlog is the newest part of the history, at most 128; deliveries are in order, once, from before it; pushed = delivered + dropped + pending |
| InputEvents.DropsOnlyWhenFull | src/virtio/input.cpp:146-150 | an event is dropped exactly when one is pushed onto 128 |
| InputDevice.PushAllKeepsNewest | src/virtio/input.cpp:146-150 | after any pushes the backlog is the newest 128 of all |
| InputDevice.Input.PushEvent | src/virtio/input.cpp:146-150 | appends, dropping the oldest above 128 |
| InputDevice.Input.FlushEvents | src/virtio/input.cpp:152-189 | the loop leaves backlog, memory and rings as the flush function says, and interrupts exactly when something was delivered |
| InputDevice.Input.SendKey | src/virtio/input.cpp:129-134 | the key event and its report, then a flush with its interrupt |
| InputDevice.Input.SendPointer | src/virtio/input.cpp:136-144 | both axes, both buttons and the report, then a flush with its interrupt |
| InputDevice.Input.ProcessStatusq | src/virtio/input.cpp:191-216 | every status buffer is returned empty, with an interrupt exactly when there was one |
| InputDevice.Input.Reset | src/virtio/input.cpp:281-286 | both queues, the backlog and the interrupt start over |
| InputReports.EventInBuffer | src/virtio/input.cpp:163-183 | the next posted buffer that is mapped, writable and holds 8 bytes gets the oldest event's bytes and is used with length 8; any other is passed over |
| InputReports.KeyIsSeen | src/virtio/input.cpp:129-134 | a key event makes exactly that key seen pressed or released |
| InputReports.PointerIsSeen | src/virtio/input.cpp:136-144 | a pointer report makes both axes and both buttons seen under their codes |
| InputReports.ReportReachesDriver | src/virtio/input.cpp:129-189 | with an empty backlog and room for it, a whole report reaches the driver |
| InputReports.StatusReturned | src/virtio/input.cpp:191-216 | every status buffer comes back, in order and with length 0 |
| NetChains.EndsIffAcyclic | src/virtio/net.cpp:156-165 | the chain walk ends if and only if the chain is acyclic, then within the table's size |
| NetChains.SelfLinkNeverEnds | src/virtio/net.cpp:156-165 | the walk over a descriptor linked to itself never ends |
| NetChains.GatherFrame | src/virtio/net.cpp:156-165 | for any acyclic chain the gather loop ends with the concatenation of its mapped buffers |
| NetTransmit.TransmitSends | src/virtio/net.cpp:153-178 | a drain gives the stack every published chain's bytes less the 12-byte header, once and in order, and returns that many buffers |
| NetTransmit.PacketsAreSent | src/virtio/net.cpp:153-178 | packets laid out in chains, cut into buffers anyhow, reach the stack once, in order, without their headers |
| NetTransmit.BuffersComeBack | src/virtio/net.cpp:171-178 | every buffer of a transmit drain comes back with length 0 |
| NetDevice.Net.ProcessTx | src/virtio/net.cpp:144-182 | the drain leaves rings and sent frames as the transmit function says |
| NetReceive.FeedReadsBack | src/virtio/net.cpp:123-136 | the driver finds the zeroed header with num_buffers 1 and then exactly the frame |
| NetReceive.FrameHandOff | src/virtio/net.cpp:78-140 | under every interleaving, delivered frames are an in-order, duplicate-free subsequence of those enqueued, each behind its header |
| NetReceive.FrameInBuffer | src/virtio/net.cpp:107-140 | a frame is delivered, behind its 12 bytes of header, exactly when the next posted buffer is mapped and holds it; else nothing changes |
| NetReceive.NoFrameDropped | src/virtio/net.cpp:84-140 | a whole batch is delivered when that many buffers are posted and each holds its frame |
| NetDevice.Net.EnqueueRx | src/virtio/net.cpp:78-82 | adds the frame at the queue's end |
| NetDevice.Net.DoFeedRx | src/virtio/net.cpp:107-140 | one frame delivered whole in one buffer, or dropped with memory and rings untouched |
| NetDevice.Net.TakeBatch | src/virtio/net.cpp:94-97 | the batch is the queue in order, which is left empty |
| NetDevice.Net.FlushRound | src/virtio/net.cpp:84-104 | the batch is the whole queue, fed in order, with an interrupt exactly when one was delivered |
| ConsoleLog.PiecesAreCrlf | src/core/logger.cpp:17-31 | the search loop's pieces are the data with every LF turned into CR LF |
| ConsoleLog.WriteConcat | src/core/logger.cpp:72-87 | writing a and then b has the effect of writing a followed by b |
| ConsoleLog.WriteIsCrlf | src/core/logger.cpp:72-87 | left alone by messages, stdout and the pending bytes are the guest's bytes without CRs and with each LF translated |
| ConsoleLog.ConsoleHistory | src/core/logger.cpp:36-87 | after any interleaving, stdout is clean lines ended by CR LF carrying the guest's bytes, stderr the messages, and stdout is at a line boundary at every write to stderr |
| LoggerState.Logger.RawEmit | src/core/logger.cpp:17-31 | the descriptor gets exactly the translated data |
| LoggerState.Logger.Flush | src/core/logger.cpp:36-41 | a partial line is closed, an empty one is not |
| LoggerState.Logger.LogMessage | src/core/logger.cpp:54-70 | the partial guest line is closed first, then the message is written |
| LoggerState.Logger.WriteBytes | src/core/logger.cpp:72-87 | the byte loop has the effect of the byte-by-byte function |

## Left out

- Operating-system calls: sockets, poll, connect timeouts, files, threads and interrupts are events, parameters or flags; a write or read of the host side may be short or fail at any point the code allows.
- The C++ memory model: each atomic operation and each section under a mutex is one step.
- Other protocols of the relay: ARP, ICMP, DNS and generic UDP forwarding, and the port-forward listeners.
- A frame whose IP total length runs past its captured bytes: the code reads on; the decoder reports `Overread` and no step is taken.
- Identity of reaped connections: `done_queue` names a 4-tuple, so nothing is claimed about which connection of a key a reap removes.
- The retry loop of an inbound connection: its repeated SYNs and its later removal are steps that may happen whenever the connection waits for its SYN+ACK.
- TcpStreams.HostStreamReassembles: is stated for totals below 2^32, since sequence numbers repeat after that.
- TcpStreams.GuestStreamSafety: takes guest segments cut from one stream, each less than 2^32 away from what was taken in; for other segments 32-bit numbers do not say which bytes they carry.
- GpuTransfer.TransferIsPixelwise: is stated for widths below 2^30 and rectangles and offsets that do not wrap, where section 5.7.6 of Virtio 1.2 gives a meaning; bounds are in GpuTransfer.InBoundsIff.
- GpuDevice.Gpu.Dispatch: the branch that grows a short host buffer before a transfer is not modelled; by `GpuCommands.Exec` no buffer is short.
- The running byte count of `read_backing` is unbounded: it would wrap only after 2^64 bytes of backing.
- InputEvents.EventHistory: covers runs between resets; a reset starts a new history.
- Block requests: `pread` and `pwrite` fail only at the end of the image, on a read-only image, or for a negative or too large offset; `fsync` succeeds.
- Configuration spaces, feature-select registers and address halves: constant tables and single-branch facts.
- Text: `vsnprintf` formatting of messages, NUL bytes in device-tree names, and command lines longer than 2^32.
- Console device, PL011 and RTC registers, PSCI, vCPU control, image loading and configuration parsing.
- Liveness and shutdown.
