# Verified model of an H.264 transport testbed

The client of this testbed reads an H.264 byte stream, splits it into NAL units, cuts the units into
blocks of at most 1024 bytes and sends one UDP datagram per block. The server queues what it
receives, puts units together again and plays them in order of their numbers, skipping gaps after a
timeout. This project models that path in Dafny, without error-correcting codes, and proves what it
guarantees over a network that loses, repeats and reorders datagrams. Check it with
`dafny verify dfyconfig.toml`.

The client, reader, server and player are classes and methods that work in place. Each is proved
against functions on values, and the laws about all runs are lemmas about those functions.

| module | contents |
|---|---|
| `Bytes` | bytes, 16- and 32-bit numbers, flattening of sequences |
| `AnnexB` | start codes, the incremental splitter, when chunking is invisible |
| `ByteStream` | bytes lost by extraction; printing units and parsing them back |
| `Fragmenter` | blocks of a unit, and the exact list of blocks of a transmission |
| `Reader` | class `StreamReader`: buffer, refill, extraction, cursor |
| `Wire` | packet layout, byte orders, compose and decompose |
| `Client` | the sending loop |
| `Playback` (`Player.dfy`) | the player's steps and runs; class `Player` |
| `Slots` | what one block does to the player; what slots hold in every run |
| `Accounting` | conservation of blocks, completion counts, display order, skips |
| `Playout` | progress while nothing arrives; when playout stalls |
| `Reassembly` | authentic deliveries: what is held, and when order matters |
| `Delivery` | what gets displayed when playing goes on during delivery |
| `Timing` | what depends on when rounds fall between deliveries: exact conditions on the deliveries alone |
| `Outcome` | what is displayed in the end, and when that does not depend on timing |
| `ArrivalOrder` | conditions on the order of arrival that decide what is displayed whatever the timing |
| `Lossless` | delivery in order, each block once |
| `Server` | class `PacketServer`: queue and processing |
| `DecoderId` | the 32-bit number given to the decoder |
| `Pipeline` | the whole system as a transition system; end-to-end results |
| `NetworkLedger` | conservation of datagrams |
| `OrderlyNetwork` | the queue is first-in first-out; a network that keeps order |
| `LossyNetwork` | a network that only loses |

How the parts of the program appear:

- The demuxer is a finite list of reads: a packet (perhaps empty), the end of the stream, or an error.
  An exhausted list behaves as the end of the stream.
- Numbers of 32 bits are converted and wrapped as the program does. Results about a transmission
  assume `Sendable`: unit numbers and block counts fit, and the largest number is unused. Every source
  below 4 GiB satisfies it (`Pipeline.SmallSourceSendable`).
- The network is a multiset of datagrams. Receiving, processing one packet, adding one block and one
  round of the player's thread are atomic steps, as the program's mutexes make them. The wait with a
  timeout is one step: it displays if its condition holds and times out otherwise.
- In the whole system the client is the list of blocks its reader has pending, which is what
  `StreamReader.Open` starts with and each `StreamReader.ReadTo` shortens by one.
- Giving a unit to the decoder appends its number and bytes to `displayed`.
- A host of either byte order may compose or decompose; the proofs hold for both.

The comment over the packet header says that a raw packet has a header of one byte. The code gives
both kinds of packet a header of 16 bytes, and so does the model. When the player's wait condition
holds, the program looks the unit up once more and has a branch for not finding it; that branch is
proved dead.

Some expectations a reader may have are false of the code. For these there is an exact condition:

- Reading in chunks is not always the same as splitting the whole stream
  (`AnnexB.ChunkingInvisibleIff`, `AnnexB.ChunkingVisible`): bytes after a boundary are dropped up to the next start code, and a
  zero byte before a boundary stays with the earlier unit.
- The order of deliveries matters when a unit of several blocks arrives in full with a block repeated
  (`Reassembly.OrderIndependentIff`).
- Playout can stop for ever (`Playout.PlayoutLivesIff`): a unit finished after it was passed stays first
  among the ready units, is never the one waited for and is never ahead. One repeated datagram
  (`Timing.RepeatStalls`) or two units in the wrong order (`Playout.LateUnitStalls`) are enough. Whether
  it can happen is decided by the deliveries: no timing stalls playout if and only if each unit number
  finished is above the one before it or is 2^32 - 1 (`Timing.NeverStallsIff`).
- Display order can go back when the 32-bit counter wraps (`Accounting.WrapReorders`). No timing makes it
  go back if and only if no unit is finished after number 2^32 - 1 (`Timing.AlwaysInOrderIff`); the step
  that breaks the order displays something right after that number (`Accounting.OrderBreaksIff`).
- What is displayed in the end can depend on how the rounds fall between the deliveries. It does not if and
  only if units are finished in strictly increasing order, but for copies of the last one with the same
  bytes, and there are no such copies if its number is 2^32 - 1 (`Outcome.TimingInvisibleIff`).
- Not every transmission whose blocks all arrive can be displayed in full. It can, whatever the timing, if and
  only if its units are finished in order, but for repetitions of the last (`Timing.AlwaysDeliveredIff`);
  when each block arrives once, that is if and only if the last blocks of the units arrive in the order of
  the units (`ArrivalOrder.LastsInOrderIff`).
- Decoder numbers collide (`DecoderId.IdsDistinctIff`): between units 65536 apart, and when a unit has
  more than 65536 blocks, because the bits of the block number above the low 16 are or-ed into the unit
  number. Two units are enough (`DecoderId.TwoUnitsClash`). Only the last unit may have more, fewer than
  would reach the lowest bit of its number.

## Model

| member | source | states |
|---|---|---|
| `Bytes.ToU32IsRemainder` | common/video/Stream.h:45-46 | a conversion to 32 bits keeps the remainder modulo 2^32 |
| `AnnexB.StartCodeBytes` | common/video/Stream.h:227-233 | a start code is the bytes 00 00 01 or 00 00 00 01 |
| `AnnexB.FindFinds` | common/video/Stream.h:225-237 | the search yields the first three- or four-byte start code at or after the offset, and none only if there is none |
| `AnnexB.FindStable` | common/video/Stream.h:225-237 | a start code once found stays the first one whatever is appended to the buffer |
| `AnnexB.NalusWellFormed` | common/video/Stream.h:187-209 | for arbitrary chunks every extracted unit has at least 3 bytes, begins with a start code and has none from position 3 on |
| `AnnexB.ReparsesIff` | common/video/Stream.h:187-209 | a byte string splits into itself alone if and only if it is such a unit |
| `AnnexB.NalusAreSlices` | common/video/Stream.h:187-209 | the extracted units are disjoint slices of the stream in order |
| `AnnexB.DrainThenRead` | common/video/Stream.h:187-209 | everything that can be cut from the bytes at hand is cut before the next packet is read |
| `AnnexB.LastUnitEndsAtSeam` | common/video/Stream.h:187-209 | appended bytes leave the last unit alone if and only if they begin with a start code that takes no zero byte from it |
| `AnnexB.SplitAtSeam` | common/video/Stream.h:187-209 | splitting a longer stream keeps the units of its leading part if and only if that part ends at such a seam, and then the rest is split on its own |
| `AnnexB.ChunkingInvisibleIff` | common/video/Stream.h:187-223 | chunk-by-chunk extraction equals splitting the whole stream at once if and only if every place where the reader runs dry is a seam |
| `AnnexB.ChunkingVisible` | common/video/Stream.h:187-223 | two chunks, the first ending in a zero byte, that are split differently from the stream they make up |
| `ByteStream.LosslessIff` | common/video/Stream.h:187-223 | units never hold more bytes than were read; they hold all bytes in order if and only if nothing precedes a start code where the reader looks for one and nothing is left over |
| `ByteStream.AlignedExtraction` | common/video/Stream.h:187-223 | when every non-empty packet begins with a start code, extraction splits each packet on its own and keeps every byte |
| `ByteStream.AlignedChunkingInvisible` | common/video/Stream.h:187-223 | if also no packet ends in a zero byte, the result is that of splitting the whole stream |
| `ByteStream.RoundTripIff` | common/video/Stream.h:187-237 | printing units with any mix of start codes and splitting the bytes gives them back if and only if no payload contains 00 00 01 and none ending in 00 is followed by a short start code |
| `ByteStream.ConformingRoundTrip` | common/video/Stream.h:187-237 | payloads that satisfy section 7.4.1 of ITU-T H.264 always come back |
| `Fragmenter.SlicesRejoin` | common/video/Stream.h:44-50 | the blocks of a unit partition it: joined in order they are the unit |
| `Fragmenter.DivisionCounts` | common/video/Stream.h:45 | the rounded-up division is the number of blocks of 1024 bytes needed |
| `Fragmenter.EmissionIsTrueBlocks` | common/video/Stream.h:44-63 | successive reads give, unit after unit, blocks 0, 1, ... each stamped with its number, its unit's number and its unit's block count |
| `Fragmenter.EmissionExact` | common/video/Stream.h:44-63 | the reads give every block of the transmission and nothing else, in strictly increasing order of unit and block number |
| `Fragmenter.EmissionBytes` | common/video/Stream.h:44-63 | the data of all blocks in order is the transmission |
| `Reader.PacketsLead` | common/video/Stream.h:204-215 | the packets read from a source are its leading reads that are packets, with their data, up to the first that is the end or an error |
| `Reader.StreamReader.Open` | common/video/Stream.h:133-137 | a reader just opened is valid, has nothing unread, and has the blocks of all units of the source to give, numbered from 0 |
| `Reader.StreamReader.FindStartCode` | common/video/Stream.h:225-237 | the loop returns the first start code, or none when there is none |
| `Reader.StreamReader.FillStreamBuffer` | common/video/Stream.h:211-223 | succeeds exactly when the next read is a packet, appends its data, empty or not, and takes one read; fails at the end of the stream and on an error alike |
| `Reader.StreamReader.CutNalu` | common/video/Stream.h:190-202 | the current unit becomes the bytes from the start code up to the next one at hand or the end of the buffer, which is the first unit of what is unread, well formed; the offset advances there, by at least 3 |
| `Reader.StreamReader.ExtractNextNalu` | common/video/Stream.h:187-209 | finds a unit exactly when the unread bytes and packets hold one, takes the first, advances the offset by at least 3, and otherwise has read every packet |
| `Reader.StreamReader.CopyBlock` | common/video/Stream.h:44-63 | hands out the next 1024 bytes of the unit, or what is left of it, with the offset over 1024 as block number, the unit number and the rounded-up block count, all in 32 bits; that is the first pending block; the cursor moves past it, or to the next unit |
| `Reader.StreamReader.ReadTo` | common/video/Stream.h:35-64 | returns 0 exactly when no block is pending and then changes no output; otherwise hands out the first pending block |
| `Wire.StoredBytes` | common/socket/Packet.h:77-80 | in memory a little-endian host keeps the least significant byte of a number first, a big-endian one the most significant |
| `Wire.Converted32` | common/socket/Packet.h:78-80 | conversion between host and network order reverses the four bytes of a number on a little-endian host and keeps it on a big-endian one |
| `Wire.Converted16` | common/socket/Packet.h:77 | the same for two bytes |
| `Wire.DatagramBytes` | common/socket/Packet.h:37-64 | a datagram is mode, packet index, size in bytes 2 and 3, block, unit and block count in bytes 4 to 15, each most significant byte first, and then the payload |
| `Wire.NetworkOrder` | common/socket/Packet.h:77-80 | a number converted to network order lies in memory most significant byte first on hosts of either byte order |
| `Wire.HostOrder` | common/socket/Packet.h:124-142 | loading network bytes and converting them yields the number they spell, on hosts of either byte order |
| `Wire.ComposeRaw` | common/socket/Packet.h:67-84 | rejects exactly long payloads and missing buffers; otherwise the bytes sent are 0, 0, the length, block number, unit number and block count, each most significant byte first, the payload, and zeros up to 1040 bytes, on hosts of either byte order |
| `Wire.ComposeRs` | common/socket/Packet.h:86-104 | the same for encoded packets, which begin with 1 and the packet index; the whole field is copied whatever length is given, and a receiver reads every argument in its own place |
| `Wire.Decompose` | common/socket/Packet.h:106-182 | total on all bytes and lengths with every access in bounds; accepts exactly 16 to 1040 bytes that begin with 0 and announce at most 1024, or 16 to 144 that begin with 1; each header number is the value of its bytes, most significant first, and the payload is what follows, padded with zeros |
| `Wire.AcceptedIff` | common/socket/Packet.h:106-182 | a byte string is accepted if and only if it begins the datagram of some sound packet and holds at least its header |
| `Wire.Parse` | common/socket/Packet.h:106-182 | the kind of packet follows the mode byte, payload areas are full, and a raw size is at most 1024 |
| `Wire.ParseCanonical` | common/socket/Packet.h:106-182 | serialising the parsed packet gives back the datagram padded with zeros to full length |
| `Wire.ParseDatagram` | common/socket/Packet.h:106-182 | every sound packet, that is with a matching mode and, if raw, a size that fits, survives the wire with all its fields |
| `Wire.RawRoundTrip` | common/socket/Packet.h:67-84 | the block the server takes from a received raw packet is the block that was sent |
| `Wire.RsRoundTrip` | common/socket/Packet.h:86-104 | an encoded packet comes back with mode, packet index, length, block, unit and count in their places and its field, and is never the datagram of a raw one |
| `Client.EmissionFits` | client/client.cpp:61-68 | no block handed out by the reader is too large for a packet |
| `Client.ReaderThread` | client/client.cpp:42-72 | the loop ends for every source, having sent the datagrams of all pending blocks in order |
| `Playback.Player.constructor` | common/video/Player.h:388-390 | a new player is in the initial state |
| `Playback.Player.AllPresent` | common/video/Player.h:83-90 | decides whether every slot is filled |
| `Playback.Player.Concatenate` | common/video/Player.h:93-97 | concatenates the slots in order |
| `Playback.Player.AddBlock` | common/video/Player.h:61-106 | performs the block step on the state in place, including the entry made before the range check and all counters; the data is in its slot or the unit is ready, and other units and playout are untouched |
| `Playback.Player.PlayRound` | common/video/Player.h:156-195 | performs one round in place: display if due, otherwise skip to a first ready unit that is ahead; no change when asked to stop |
| `Slots.BlockTakesSlot` | common/video/Player.h:66-104 | in every state a block takes its slot, whatever that held; it finishes its unit exactly when all other slots are filled, and its data then stands in the unit between that of the slots before and after |
| `Slots.BlockWithoutSlot` | common/video/Player.h:66-79 | a block without a slot is dropped, but leaves the assembly it met, newly made with as many empty slots as announced if there was none |
| `Slots.BlockTouchesItsUnit` | common/video/Player.h:64-73 | every block counts as accepted, a first block adds what it announces to the expected ones, and other units stay as they are |
| `Slots.EmptyAnnouncementBlocks` | common/video/Player.h:66-79 | a first block that announces no blocks keeps its unit from becoming ready in every later run |
| `Slots.SlotHoldsLatest` | common/video/Player.h:66-104 | in every run each slot of an open assembly holds what was last delivered for it since its unit was last finished |
| `Accounting.BlockConservation` | common/video/Player.h:64-105 | in every run expected blocks are open slots plus blocks of finished units, accepted blocks are filled slots plus those blocks plus overwrites plus rejections, and every open assembly is zero-sized or has an empty slot |
| `Accounting.OverwriteNeverCompletes` | common/video/Player.h:81-92 | a block for a filled slot never finishes a unit |
| `Accounting.EmptyAssemblyStays` | common/video/Player.h:66-79 | an assembly announced with no blocks stays for ever and keeps its unit from becoming ready, whatever is delivered |
| `Accounting.CompletionCounting` | common/video/Player.h:66-105 | with consistent block counts, deliveries of a block equal completions of its unit plus overwrites of its slot plus one if the slot is filled, so nothing is finished twice unless each block came twice |
| `Accounting.OrderBreaksIff` | common/video/Player.h:165-192 | in any run whose display order is increasing so far, the next step breaks it if and only if it is a round with a unit due right after number 2^32 - 1 was displayed |
| `Accounting.WrapReorders` | common/video/Player.h:172 | a concrete run that displays number 2^32 - 1 and then number 0 |
| `Accounting.PlayoutAccounting` | common/video/Player.h:165-192 | in every run the skip counter equals the number of gaps in what was displayed, a pending skip is to a ready unit, and the next number is units displayed plus numbers jumped over, less 2^32 for each display of number 2^32 - 1 |
| `Accounting.SkipBounds` | common/video/Player.h:185-190 | in every run skips exceed displays by at most one, and then only while the unit skipped to is ready; they never exceed the numbers jumped over |
| `Playout.AscendingExact` | common/video/Player.h:389 | the ready units taken first key first are all of them, in strictly ascending order |
| `Playout.PlayoutProgress` | common/video/Player.h:158-192 | without a stale unit and without deliveries, all ready units have been displayed in ascending order exactly from the round counted by one per unit and one per gap on, at most twice their number, with one skip per gap |
| `Playout.StalledForEver` | common/video/Player.h:158-192 | with a ready unit behind the next number, no run ever displays, skips or advances again |
| `Playout.DrainsIff` | common/video/Player.h:158-192 | rounds alone can empty the ready units if and only if none is stale |
| `Playout.PlayoutLivesIff` | common/video/Player.h:158-192 | with something ready, some run displays something if and only if nothing is stale |
| `Playout.StalenessArisesIff` | common/video/Player.h:102-103 | a step makes a unit stale if and only if it finishes one whose number playout has passed |
| `Playout.StalledIff` | common/video/Player.h:158-192 | a run has stalled if and only if one of its steps finished a unit whose number playout had passed by then |
| `Playout.LateUnitStalls` | common/video/Player.h:158-192 | unit 1 skipped to before the only block of unit 0 arrives: nothing is ever displayed |
| `Reassembly.AuthenticRun` | common/video/Player.h:61-199 | in every run of authentic deliveries, slots, ready units and displayed units are what was sent; a unit is ready or displayed exactly when all its blocks were delivered; an incomplete one holds exactly the blocks delivered |
| `Reassembly.SettledClosedForm` | common/video/Player.h:61-106 | ready units are a function of the set of delivered blocks, and open assemblies too when every unit is settled |
| `Reassembly.LastBlockRepeats` | common/video/Player.h:66-105 | a repeated last block finishes the unit and then reopens it with that block alone |
| `Reassembly.RepetitionUnsettles` | common/video/Player.h:66-105 | one repeated block after a full delivery of several unsettles the unit |
| `Reassembly.UnsettledDepends` | common/video/Player.h:66-105 | an unsettled unit is left differently by two orders of the same deliveries |
| `Reassembly.OrderIndependentIff` | common/video/Player.h:61-106 | all orders of the same deliveries leave the same assemblies and ready units if and only if no unit of several blocks was delivered in full with a block repeated |
| `Delivery.SkipsOnlyIncomplete` | common/video/Player.h:158-192 | a round moving past a unit displays it if all its blocks were delivered and skips it if not |
| `Delivery.DeliveryIff` | common/video/Player.h:61-199 | once every block was delivered, further rounds display the whole transmission in order if and only if nothing is stale or it is displayed already |
| `Timing.RoundsKeepAssembling` | common/video/Player.h:61-192 | which units are open and what is in them depends on the deliveries alone, not on the rounds between them |
| `Timing.NeverStallsIff` | common/video/Player.h:61-192 | no placement of rounds between given deliveries stalls playout if and only if each number they finish is above the one before it or is 2^32 - 1 |
| `Timing.AlwaysInOrderIff` | common/video/Player.h:61-192 | every placement of rounds displays in strictly increasing order if and only if nothing is finished after number 2^32 - 1 |
| `Timing.FinishingOrderShownIff` | common/video/Player.h:61-192 | after every placement of rounds, playing on displays exactly the units finished, byte for byte and in order of finishing, if and only if they are finished in strictly increasing order |
| `Timing.AlwaysDeliveredIff` | common/video/Player.h:61-199 | when every block of a transmission is delivered, perhaps repeatedly, playing on displays all of it in order after every placement of rounds if and only if units are finished in strictly increasing order of number, but for repetitions of the last unit |
| `Timing.RepeatedUnitStalls` | common/video/Player.h:66-105 | a one-block unit that was passed and is delivered again stops the display for ever, from any state without an open assembly of it |
| `Timing.RepeatStalls` | common/video/Player.h:158-192 | one repeated datagram: unit 0 of one block is displayed and delivered again, and nothing more is ever displayed |
| `Outcome.EndIsFinal` | common/video/Player.h:158-192 | from the round on that is counted by one per ready unit and one per gap, what is displayed stays the same: everything ready follows in ascending order, or nothing if a unit is stale |
| `Outcome.TimingInvisibleIff` | common/video/Player.h:61-192 | any two placements of rounds between given deliveries end with the same units and bytes displayed if and only if units are finished in strictly increasing order, but for identical copies of the last, of which there are none if its number is 2^32 - 1 |
| `ArrivalOrder.InOrderFinishes` | common/video/Player.h:61-106 | blocks delivered in the order of sending, each at most once and any of them missing, finish units in strictly increasing order |
| `ArrivalOrder.FinishesIffLast` | common/video/Player.h:81-105 | when each block of a transmission is delivered once, a delivery finishes its unit if and only if it is the last one for that unit |
| `ArrivalOrder.LastsInOrderIff` | common/video/Player.h:61-199 | when each block of a transmission is delivered once, in any order, playing on displays all of it in order after every placement of rounds if and only if the last blocks of the units are delivered in the order of the units |
| `Lossless.InOrderConservesBytes` | common/video/Player.h:146-195 | for deliveries in order with rounds between, displayed, ready and open bytes together are exactly the bytes delivered, nothing is skipped, and at most one unit is open |
| `Lossless.InOrderCompletes` | common/video/Player.h:146-195 | after all deliveries in order, as many rounds as there are ready units display the rest |
| `Server.PacketServer.constructor` | server/server.cpp:37-39 | the queue starts empty |
| `Server.PacketServer.Receive` | server/server.cpp:43-60 | appends the parsed packet to the queue and counts it, or changes nothing when the datagram is not acceptable |
| `Server.PacketServer.Process` | server/server.cpp:79-121 | takes the front packet; if it is raw, adds the first bytes of its payload, as many as announced, under its numbers; if it is encoded adds what the decoder recovered, resized to the announced length, under its numbers, or nothing |
| `Server.EncodedRoundTrip` | server/server.cpp:99-119 | processing an encoded packet composed with the numbers of a block, from which the decoder recovers data that begins with the block's, adds exactly that block |
| `DecoderId.IdsAgreeIff` | server/server.cpp:110 | for all 32-bit numbers two identifiers agree if and only if the block numbers have the same 16 low bits and the low bits of the unit number or-ed with the high bits of the block number are the same; for short block numbers the latter are the unit number modulo 2^16 |
| `DecoderId.TwoUnitsClash` | server/server.cpp:110 | in a transmission of two units, the second with more than 2^16 blocks, blocks 0 and 2^16 of unit 1 share an identifier |
| `DecoderId.IdsDistinctIff` | server/server.cpp:110 | no two blocks of a transmission share an identifier if and only if there are at most 2^16 units, each with at most 2^16 blocks, except that the last unit L may have up to 2^16 times the lowest set bit of L, or any number if it is the only unit |
| `Pipeline.SmallSourceSendable` | common/video/Stream.h:44-61 | every source of less than 4 GiB fits the 32-bit numbers |
| `Pipeline.RunProjects` | server/server.cpp:41-123 | in every run only datagrams and packets carrying blocks of the transmission are under way or queued, and the player's part is a run on authentic deliveries |
| `Pipeline.EndToEndSafety` | common/video/Player.h:61-199 | in every interleaving of sending, loss, repetition, reordering, receiving, processing and playing, the decoder gets units in strictly increasing order, each byte for byte the unit extracted under that number |
| `Pipeline.FinishedIffProcessed` | server/server.cpp:79-97 | a unit is displayed or ready if and only if every one of its blocks has been processed |
| `Pipeline.NoCompleteUnitSkipped` | common/video/Player.h:183-191 | playing never passes over a unit all of whose blocks have been processed |
| `Pipeline.EndToEndDelivery` | server/server.cpp:41-123 | once every block got through, playing on displays every unit in order if and only if playout has not stalled or is done |
| `Pipeline.PrintedStreamDisplayed` | client/client.cpp:47-72 | when conforming units are printed, read in chunks without visible joins, and all their blocks have been processed, playing on displays them as printed if and only if no ready unit is stale or all are displayed already |
| `NetworkLedger.NetworkConserves` | server/server.cpp:41-60 | in every run the datagrams under way, arrived and lost are together those sent and repeated |
| `NetworkLedger.SendsInOrder` | client/client.cpp:47-72 | what was sent in a run and what is still to be sent are together the client's datagrams, in order |
| `OrderlyNetwork.QueueIsFifo` | server/server.cpp:55-81 | packets are processed in the order in which they were received |
| `OrderlyNetwork.CarriedBack` | common/socket/Packet.h:67-182 | blocks sent one datagram each are parsed back unchanged and in order |
| `OrderlyNetwork.OrderlyNetworkConserves` | server/server.cpp:41-123 | over a network that delivers a beginning of the client's datagrams in order, nothing is skipped and the player holds and has shown exactly what was processed |
| `OrderlyNetwork.OrderlyNetworkCompletes` | server/server.cpp:41-123 | when all datagrams have arrived in order and the queue is empty, as many further rounds as there are ready units display every unit of the source |
| `LossyNetwork.LossNeverStalls` | server/server.cpp:41-123 | over a network that loses datagrams but neither repeats nor reorders them, no interleaving leaves a ready unit stale |
| `LossyNetwork.LossyNetworkShows` | server/server.cpp:41-123 | over such a network, once the queue is empty, playing on displays exactly the units all of whose datagrams have arrived, in order and byte for byte |

## Left out

- Encoding and decoding with error-correcting codes: the coder is fetched at build time and is not part of this model. Encoded packets are modelled on the wire and in the server, where what the decoder recovers is an arbitrary input.
- The client's loop over encoded packets (client/client.cpp:74-98): it depends on the encoder's output.
- The demuxer, its bitstream filter, the decoder, windows and rendering: calls into other libraries.
- Sockets, threads, timers and sleeps: only the order of atomic steps is modelled. A failed send is a lost datagram. Corrupted datagrams are not modelled, because the wire format has no check against them.
- The player's thread is modelled by one round (`Playback.Player.PlayRound`), not by its loop, which ends only on request.
- `Close` of the reader, logging, configuration and the statistics file.
- Counters are unbounded in the model and 64-bit in the program.
