# Antikernel: models and proofs

Dafny models of the parts of Antikernel that keep state or do arithmetic, and proofs of what they promise. Each
module names the files it models. `dafny verify dfyconfig.toml` checks everything.

- **Network-on-chip simulator** (`GridTopology`, `QuadtreeTopology`, `NocNetwork`, `NocConservation`, `NocTiming`,
  `NocSpacing`, `NocProgress`, `NocSimulator`, `NocClock`, `NocCreation`): grid and quadtree routers with inboxes,
  blocked outboxes, the four-clock delay and routing by address arithmetic. `NocNetwork` is a transition system in which
  any router may step next and hosts may answer while a router delivers to them; `NocSimulator` holds the objects, whose
  methods are proved to take exactly its steps, and `NocCreation` builds and connects them. What can go wrong in any run
  is excluded by `NocConservation`, `NocTiming` and `NocSpacing`; what must happen is in `NocProgress` and `NocClock`.
- **Netlist flattening** (`Netlist`, `FlatMeaning`, `Flatten`): the pass-by-pass rewriting of a hierarchy into a flat
  netlist, against a recursive definition of what the hierarchy means.
- **Polynomials over GF(2)** (`Bits`, `GF2`, `GF2NMath`, `BCH`, `Crc8Table`, `Crc8`, `Crc32Table`, `Crc32`,
  `Crc32Poly`): a number is a polynomial, bit i its coefficient of x^i. One theory of remainder and product serves the
  field arithmetic, the BCH code and both table-driven checksums.
- **JTAG bridge** (`RpcMessages`, `JtagFrames`, `JtagLink`, `JtagBridge`, `LinkErrors`, `BurstRows`, `LinkBursts`):
  messages, frames, the deframer whose input may be cut anywhere, and the transmission errors it notices.
- **nocswitch** (`NocSwitch`, `SwitchRequests`, `SwitchDeadlock`, `SwitchDelivery`, `SwitchClient`): the server's
  threads as a state machine of lock, send and table steps, what they do with requests, what they wait for and what they
  deliver, and the client that sorts one byte stream into messages and replies.
- **SNMP** (`Ber`, `BerBuffers`, `Snmp`, `SnmpBuffers`, `SnmpClient`, `SnmpAgent`, `SnmpValues`, `SnmpTransaction`,
  `OidTable`): BER over byte buffers with patched lengths, the client's and the agent's messages, what the answers hold,
  and the ordered search behind GETNEXT.
- **Firmware tables** (`ArpCache`, `Interrupts`): the two-way ARP cache and the ring of pending interrupts.

`Options` and `Collections` hold what several modules share. C integers are natural numbers with their widths written
out (`u8`, `u16`, `u32`, `% TWO_32`); shifts and bit operations are defined in `Bits`. Objects and buffers that the
sources change in place are classes and arrays here, each method proved against a function of the old contents, and
the laws are proved about those functions.

What the proofs found:

- The parent of a quadtree router is recognised by the middle address of its subnet, which is an address of its second
  child: that child files its parent's packets in the inbox of its own fourth child (`QuadtreeTopology.InboxOfParent`).
- The switch's two kinds of thread take socket and map mutex in opposite orders and can wait for each other for good,
  from the start on (`SwitchDeadlock.DeadlockFromStart`, `SwitchDeadlock.DeadlockIsPermanent`); they cannot if every
  connection asks for an address only while it has none (`SwitchDeadlock.NoDeadlockWhenAskedOnce`), and in no other way
  (`SwitchDeadlock.OnlyCyclicWait`).
- The payload checksum is a CRC-32 whose four bytes are sent in reverse order. Low bits first, every burst of at most
  30 bits is noticed, and a burst of 31 bits from the last payload bit on never is (`LinkBursts.WireBurstRejected`,
  `LinkBursts.LongerBurstAccepted`); in the checksum's own order none of at most 32 bits escapes
  (`LinkErrors.PayloadErrorRejected`).
- Flattening a netlist does not end when a module contains itself below the top, unless it fails
  (`Flatten.CyclicNeverDone`, `Flatten.EndsExactlyWhen`).
- A BER integer with an inner octet that the masks skip is not decoded as encoded (`Ber.IntegerRoundTrip`); since request
  ids are such integers, the first client request whose reply is refused on account of its id is number 65536
  (`Ber.FirstLost`, `SnmpTransaction.GetTransaction`). From 2^31 on the octets are those of a negative number
  (`Ber.ContentIsTwosComplement`).
- Numbers from 1024 to 16383 are encoded with a leading octet that X.690 forbids (`Ber.LeadingOctet`).
- Adding an ARP record may evict an address while the other row of its set is free: three records are enough
  (`ArpCache.EvictionRun`, `ArpCache.EvictsWithRoomWhen`). It may also leave two rows with one MAC address, which the
  scan is there to prevent (`ArpCache.TwoRowsRun`, `ArpCache.OncePerMacWhen`).
- The SNMP agent answers under the name of its last table row instead of the one RFC 3416 wants (sections 4.2.1, 4.2.2
  and 4.2.5) when it has no entry to answer with or refuses to write one (`SnmpAgent.AnswerNames` says exactly when,
  `SnmpAgent.MisnamedAnswers` gives a request of each kind).

## Model

| member | source | states |
|---|---|---|
| `NocConservation.EveryPacketIsInExactlyOnePlace` | `sim/noc/GridRouter.cpp:227-324` | in every run of either topology, with any order of Timesteps and hosts answering into the router that delivers to them, each packet ever created is in one inbox, delivered, dropped or rejected, and in one such place only |
| `NocTiming.DeliveriesAreTimely` | `sim/noc/NOCPacket.cpp:46-72` | in every run a delivered packet has reached the host it is addressed to, has been accepted by exactly the routers of its route, and is at least four clocks per router old |
| `NocTiming.RouteLengthIsPath` | `sim/noc/GridRouter.cpp:162-225` | the route length of that theorem is the length of the path the routers' ports describe: distance plus one in the grid, at most 2k-1 in the tree |
| `NocSpacing.DeparturesAreFiveApart` | `sim/noc/QuadtreeRouter.cpp:188-259` | in every run two packets leave the same output port at least five clocks apart |
| `NocProgress.TimestepMoves` | `sim/noc/GridRouter.cpp:249-324` | a router's Timestep, inbox by inbox and outbox by outbox: a packet leaves if and only if its time has come, its outbox is free or becomes free, and it is first for that outbox, the round-robin winner's packet before all others and then the lowest inbox; it is then with the host it is addressed to (whose answer is on its way or was rejected), in the neighbour's inbox with forward time exactly four clocks on, rejected there because that inbox was full, or dropped because the outbox leads nowhere; its outbox clears in exactly four clocks; every other packet and outbox stays as it is |
| `NocProgress.NothingIsLeft` | `sim/noc/QuadtreeRouter.cpp:188-259` | after its Timestep a packet that might have left waits for a blocked outbox |
| `NocProgress.HandOverEffects` | `sim/noc/GridRouter.cpp:308-323` | what handing a packet over does to the network, and that every full inbox is kept |
| `NocClock.SendEnters` | `sim/noc/NOCPacket.cpp:46-54` | a packet sent stands in the inbox for its host's low address bits with forward time four clocks on, or was rejected because that was full, and nothing else changes |
| `NocClock.PlainHostReplies` | `sim/noc/NOCHost.cpp:90-144` | kind, size and destination of every answer; an answer is never answered; the CPU answers nothing |
| `NocClock.OneClock` | `sim/noc/main.cpp:318-326` | in a clock the routers are stepped in the order of the nodes, the CPU and the network interface send all they want to, no other host sends, and the clock does not tick in between |
| `NocClock.EveryClock` | `sim/noc/main.cpp:318-326` | the same over any number of clocks, with one tick each |
| `NocClock.LatencyIsAge` | `sim/noc/NOCPacket.cpp:63-72` | until the clock reaches 2^32 the latency counted for a delivery is its age, so at least four clocks per router of its route |
| `NocClock.StatisticsAre` | `sim/noc/NOCPacket.cpp:56-72` | the four numbers counted are the number of deliveries and the least, greatest and summed latency |
| `NocNetwork.RouteStaysInside` | `sim/noc/GridRouter.cpp:147-225` | a routed port exists and leads to a router of the network with a valid inbox, or to the very host addressed; it leads nowhere only for addresses that no host has |
| `NocNetwork.RouteIsMasked` | `sim/noc/QuadtreeRouter.cpp:157-164` | in a tree of 16-bit addresses that port is the one that the router's mask and shift select |
| `NocNetwork.HomeExists` | `sim/noc/main.cpp:155-211` | every host hangs from an existing router |
| `NocNetwork.RunJoin` | `sim/noc/main.cpp:318-326` | two runs one after the other are one run |
| `NocSimulator.Router.AcceptMessage` | `sim/noc/GridRouter.cpp:227-247` | a full inbox rejects; otherwise the packet is filed and may leave four clocks later; nothing else of the router changes |
| `NocSimulator.Router.ClearOutboxes` | `sim/noc/GridRouter.cpp:249-257` | exactly the outboxes whose clear time has passed become free |
| `NocSimulator.Simulation.Processed` | `sim/noc/NOCPacket.cpp:63-72` | one more delivery is logged, and minimum, maximum, count and sum of the latencies remain those of the deliveries logged |
| `NocSimulator.Simulation.Send` | `sim/noc/NOCPacket.cpp:46-54` | a packet stamped with the current time and a new number enters its host's router, or is rejected there |
| `NocSimulator.Simulation.HostAccepts` | `sim/noc/NOCHost.cpp:90-144` | the delivery is counted; the CPU sends nothing, the network interface what its state wants, any other host what PlainHostAccepts says |
| `NocSimulator.Simulation.PlainHostAccepts` | `sim/noc/NOCHost.cpp:90-144` | calls, reads and writes are answered, at once and into the delivering router, with a return, the data of the size asked for, or an acknowledgement; other kinds are not |
| `NocSimulator.Simulation.TryForwardFrom` | `sim/noc/GridRouter.cpp:273-324` | the network after the call, whatever the inbox holds and whatever the receiver answers, and the returned flag, are those of the value model, of which NocProgress says what moves |
| `NocSimulator.Simulation.Timestep` | `sim/noc/QuadtreeRouter.cpp:188-207` | one Timestep of a router is one step of the value model, which NocProgress.TimestepMoves describes inbox by inbox |
| `NocSimulator.Simulation.HostTimestep` | `sim/noc/NOCHost.cpp:146-149` | a plain host sends nothing; the Timestep of the CPU or the network interface is the run of the packets it sends |
| `NocSimulator.Simulation.RunClock` | `sim/noc/main.cpp:323-324` | every router and every host takes its Timestep exactly once, in some order |
| `NocSimulator.Simulation.RunSimulation` | `sim/noc/main.cpp:318-326` | the clock loop is a run that steps every node once per clock, whatever the network interface answers to each router in each clock and whatever it and the CPU send, so the theorems hold of it |
| `NocCreation.CreateGridNetwork` | `sim/noc/main.cpp:133-215` | builds all sixteen routers and 256 hosts, and nothing else, with every host and every neighbour attached to the port the theorems assume, no packet anywhere and no outbox blocked |
| `NocCreation.CreateQuadtreeNetwork` | `sim/noc/main.cpp:220-309` | builds exactly the routers of every height and the 4^k hosts, with every child and parent attached to the port the theorems assume, no packet anywhere and no outbox blocked |
| `GridTopology.EachHopIsCloser` | `sim/noc/GridRouter.cpp:162-225` | away from the destination's router the chosen port leads to an existing neighbour one step nearer; there, to the host |
| `GridTopology.PathIsShortest` | `sim/noc/GridRouter.cpp:162-225` | from every router to every address, in both modes, the path ends at the destination's router after exactly &#124;dx&#124;+&#124;dy&#124; hops |
| `GridTopology.NoTurnFromYToX` | `sim/noc/GridRouter.cpp:162-225` | X-Y routing never turns from the Y axis back to the X axis |
| `GridTopology.HashAlternates` | `sim/noc/GridRouter.cpp:162-225` | while the destination is diagonal hash routing takes the axis by the parity of the four coordinates, so it changes axis at every hop |
| `GridTopology.HostPort` | `sim/noc/GridRouter.cpp:147-160` | a host's packets enter at the port its low four address bits name |
| `GridTopology.ReceiverIsOpposite` | `sim/noc/GridRouter.cpp:147-160` | the inbox a router files a neighbour's packet in is opposite to the port the neighbour sent it through |
| `GridTopology.NeighborsNeverShareInbox` | `sim/noc/main.cpp:194-211` | two distinct neighbours, or a neighbour and a host, never file into the same inbox |
| `QuadtreeTopology.PortIsDigit` | `sim/noc/QuadtreeRouter.cpp:157-164` | mask and shift select the base-4 digit of the address at the router's level, or the parent's port outside the subnet, for every subnet of 16-bit addresses |
| `QuadtreeTopology.RoutesByMask` | `sim/noc/QuadtreeRouter.cpp:157-164` | every router of a network of at most 4^8 hosts has such a subnet, so all the theorems on the tree are about mask and shift |
| `QuadtreeTopology.Subnets` | `sim/noc/main.cpp:233-270` | the root's subnet is the network, and each child's base and size are the quarter of its parent's that the construction computes |
| `QuadtreeTopology.UpThenDown` | `sim/noc/QuadtreeRouter.cpp:132-164` | every packet climbs to the lowest common ancestor, then only descends, to the destination's router |
| `QuadtreeTopology.AtMostTwiceTheDepth` | `sim/noc/QuadtreeRouter.cpp:132-164` | between any two of 4^k hosts a packet passes at most 2k-1 routers |
| `QuadtreeTopology.InboxOfChild` | `sim/noc/QuadtreeRouter.cpp:132-155` | a child router is recognised at the port that leads to it |
| `QuadtreeTopology.InboxOfParent` | `sim/noc/QuadtreeRouter.cpp:132-155` | the parent is recognised at its own port except by its second child, which files the parent's packets in the inbox of its own fourth child: exactly when |
| `Flatten.FlattenNetlist` | `legacy-branches/old-pcb/drc.php:272-352` | the passes come to an end unless a module contains itself below the top and nothing stops them; they fail exactly when no module is top or some instance in the hierarchy is of a module with connections of its own; otherwise the fixpoint is the recursive elaboration of the first top module, whose cells are exactly the instances of a kind that is not in the library or is a black box |
| `Flatten.EndsExactlyWhen` | `legacy-branches/old-pcb/drc.php:289-349` | the depth the passes can reach is bounded if and only if no module contains itself below the top or some instance makes a pass fail |
| `Flatten.CyclicNeverDone` | `legacy-branches/old-pcb/drc.php:289-349` | when a module contains itself below the top, after any number of passes a cell is left to expand |
| `Flatten.FlatModule.Pass` | `legacy-branches/old-pcb/drc.php:289-349` | the n-th pass keeps the partial flattening faithful to the hierarchy and opens exactly the instances n deep; it reports a change exactly when there are any, and none only when every cell is a leaf |
| `Flatten.ExpandKeeps` | `legacy-branches/old-pcb/drc.php:311-341` | replacing one instance by its module's contents keeps cells, wires and connections those of the hierarchy |
| `Flatten.DoneIsElaborated` | `legacy-branches/old-pcb/drc.php:287-351` | when only leaves are left, the cells are exactly the leaf paths, and wires and connections those of all instances |
| `Flatten.FailuresAre` | `legacy-branches/old-pcb/drc.php:329-333` | the kinds that make a pass fail are those in the library, not black boxes, with connections of their own, that are instantiated somewhere |
| `FlatMeaning.InstancesAre` | `legacy-branches/old-pcb/drc.php:293-346` | the instances of the hierarchy: the top's cells, and below an instance exactly the cells of its module; none below a primitive or a black box |
| `FlatMeaning.CellsAre` | `legacy-branches/old-pcb/drc.php:299-346` | in the elaboration a path has a cell if and only if there is an instance whose kind is not in the library or is a black box; it has the instance's kind and pins, on the wires of those names under its parent's path or on the global supply |
| `FlatMeaning.WiresAre` | `legacy-branches/old-pcb/drc.php:308-337` | the wires are the top's and, under its path, those of the module of every other instance; the connections are the top's and every pin of such an instance, to the net its parent names |
| `Netlist.ChaseIsMeaning` | `legacy-branches/old-pcb/drc.php:315-337` | following the flat connections from a reference gives the net it denotes in the hierarchy |
| `Netlist.SamePinsConnected` | `legacy-branches/old-pcb/drc.php:272-352` | two leaf pins are connected in the flat netlist if and only if they are in the hierarchy, supply nets being global |
| `GF2NMath.GF2NMod` | `legacy-trunk/src/fec/GF2NMath.c:85-97` | the shift-and-subtract loop returns the remainder: congruent to the operand, of lower degree than the divisor |
| `GF2.RemUnique` | `legacy-trunk/src/fec/GF2NMath.c:85-114` | no other polynomial of lower degree is congruent to the operand |
| `GF2NMath.GF2NModFast` | `legacy-trunk/src/fec/GF2NMath.c:103-114` | the same with both degrees given |
| `GF2NMath.GF2NMultiply` | `legacy-trunk/src/fec/GF2NMath.c:61-80` | the shift-and-add loop multiplies in GF(2)[x] modulo x^n + poly |
| `GF2NMath.FieldMulIsProductMod` | `legacy-trunk/src/fec/GF2NMath.c:61-114` | that product is the remainder of the carry-less product |
| `GF2NMath.FieldMulCommutative` | `legacy-trunk/src/fec/GF2NMath.c:61-80` | it is commutative |
| `GF2NMath.FieldMulAssociative` | `legacy-trunk/src/fec/GF2NMath.c:61-80` | it is associative |
| `GF2NMath.FieldMulDistributive` | `legacy-trunk/src/fec/GF2NMath.c:43-80` | it distributes over GF2NAdd |
| `BCH.BCHEncode` | `legacy-trunk/src/fec/BCH.c:47-52` | a codeword carries the data in its high bits and is a multiple of the generator |
| `BCH.BCHValidate` | `legacy-trunk/src/fec/BCH.c:62-65` | 1 exactly for multiples of the generator |
| `BCH.BCHRecoverErrorFreeCodeword` | `legacy-trunk/src/fec/BCH.c:74-77` | the data of any codeword, whatever the generator it was encoded with; of any other word the part above the check bits |
| `BCH.EncodeIsSystematic` | `legacy-trunk/src/fec/BCH.c:47-77` | encoding then recovering returns the data, and the codeword is valid |
| `BCH.ValidIffEncoded` | `legacy-trunk/src/fec/BCH.c:47-77` | the valid nonzero words are exactly the codewords of their own high bits |
| `BCH.SumOfCodewords` | `legacy-trunk/src/fec/BCH.c:47-52` | the sum of two distinct codewords is the codeword of the sum of their data |
| `BCH.BurstDetected` | `legacy-trunk/src/fec/BCH.c:47-65` | with a nonzero constant term, no error of at most n-k consecutive bits in a codeword validates |
| `Crc8.CRC8` | `src/nocbridge/JTAGNOCBridgeInterface.cpp:475-489` | the table loop over words computes the checksum of the first `len` bytes, for every length |
| `Crc8.ChecksumIsRemainder` | `src/nocbridge/JTAGNOCBridgeInterface.cpp:40-73` | that checksum is the message polynomial times x^8 modulo x^8+x^2+x+1 |
| `Crc8.TableIsTimes8` | `src/nocbridge/JTAGNOCBridgeInterface.cpp:40-73` | all 256 table entries are their index times x^8 modulo the polynomial |
| `Crc8.HeaderVerifies` | `src/nocbridge/JTAGNOCBridgeInterface.cpp:460-468` | a header's checksum byte matches if and only if its 64 bits are a multiple of the polynomial |
| `Crc8.HeaderErrorDetected` | `src/nocbridge/JTAGNOCBridgeInterface.cpp:460-468` | every error of one, two, three or any odd number of bits, and every burst of at most eight, makes a valid header invalid |
| `Crc32.CRC32` | `src/nocbridge/JTAGNOCBridgeInterface.cpp:491-511` | the table loop computes the complement of the byte-reversed bit-serial register, for every length in bytes |
| `Crc32.LookupIsStep8` | `src/nocbridge/JTAGNOCBridgeInterface.cpp:82-127` | one table lookup replaces eight steps of the reflected shift register |
| `Crc32.FeedIsStep8` | `src/nocbridge/JTAGNOCBridgeInterface.cpp:491-505` | adding a byte and stepping eight times is feeding its bits one by one |
| `Crc32Poly.RegisterIsRemainder` | `src/nocbridge/JTAGNOCBridgeInterface.cpp:491-505` | the register, read backwards, is the remainder of the preset message times x^32 by the CRC-32 generator (section 8 of RFC 1952) |
| `Crc32Poly.ReflectedGenerator` | `src/nocbridge/JTAGNOCBridgeInterface.cpp:82-127` | 0xEDB88320 is the generator 0x04C11DB7 read backwards |
| `RpcMessages.PackWords` | `src/nocbridge/RPCMessage.cpp:89-99` | the four words, each in 32 bits |
| `RpcMessages.PackBytes` | `src/nocbridge/RPCMessage.cpp:65-87` | the sixteen bytes |
| `RpcMessages.WordsRoundTrip` | `src/nocbridge/RPCMessage.cpp:89-110` | unpacking the packed words returns the message if and only if its type is below 8 and its first data word below 2^21 |
| `RpcMessages.WordsOfUnpacked` | `src/nocbridge/RPCMessage.cpp:95-110` | every four 32-bit words are a message's: packing the unpacked returns them |
| `RpcMessages.BytesRoundTrip` | `src/nocbridge/RPCMessage.cpp:65-124` | what the byte form keeps of any message: all of it under the same condition |
| `RpcMessages.ByteLayout` | `src/nocbridge/RPCMessage.cpp:65-87` | which byte carries which field |
| `RpcMessages.BytesOfUnpacked` | `src/nocbridge/RPCMessage.cpp:71-124` | every sixteen bytes are a message's: packing the unpacked returns them |
| `JtagFrames.HeaderRoundTrip` | `src/nocbridge/JTAGNOCBridgeInterface.h:43-86` | the header's bit fields are recovered from its two words |
| `JtagFrames.BitLayout` | `src/nocbridge/JTAGNOCBridgeInterface.h:43-86` | the bits of the two words that each field stands in |
| `JtagFrames.ComputeHeaderChecksum` | `src/nocbridge/JTAGNOCBridgeInterface.cpp:452-455` | fills in the checksum of the first seven bytes |
| `JtagFrames.VerifyHeaderChecksum` | `src/nocbridge/JTAGNOCBridgeInterface.cpp:460-468` | compares the stored checksum with the computed one |
| `JtagFrames.SealedVerifies` | `src/nocbridge/JTAGNOCBridgeInterface.cpp:452-468` | a header with its checksum filled in always verifies and keeps its other fields |
| `JtagFrames.VerifiesIffMultiple` | `src/nocbridge/JTAGNOCBridgeInterface.cpp:460-468` | verification is divisibility of the 64 bits |
| `JtagLink.LookAtFrame` | `src/nocbridge/JTAGNOCBridgeInterface.cpp:355-429` | a transmitted frame at the front of a buffer is recognised whole, with its message |
| `JtagLink.SentHeader` | `src/nocbridge/JTAGNOCBridgeInterface.cpp:247-308` | the header read from a sent frame: the acknowledgement and its number, no negative one, all credits, its own number, its length and flags; and the words behind it |
| `JtagLink.ReceivedAre` | `src/nocbridge/JTAGNOCBridgeInterface.cpp:355-429` | what the receiver does with each kind of front: bad header, incomplete frame, wrong payload checksum (skipped, neither delivered nor acknowledged), message, and any other frame |
| `JtagLink.ProcessAppend` | `src/nocbridge/JTAGNOCBridgeInterface.cpp:355-429` | receiving a prefix first and the rest later is receiving everything at once |
| `JtagLink.ChunkingIrrelevant` | `src/nocbridge/JTAGNOCBridgeInterface.cpp:349-429` | for every stream whose headers verify, messages, leftover words and acknowledgement do not depend on the chunks |
| `JtagLink.Deframes` | `src/nocbridge/JTAGNOCBridgeInterface.cpp:355-429` | a stream of frames is consumed to the last word |
| `JtagLink.Loopback` | `src/nocbridge/JTAGNOCBridgeInterface.cpp:235-429` | the words of any frames, cut into any chunks, yield exactly their messages in order, no word left over, and the last sequence number |
| `LinkErrors.HeaderErrorRejected` | `src/nocbridge/JTAGNOCBridgeInterface.cpp:355-368` | whatever arrives in place of a sent header is taken for a bad header if and only if the polynomial does not divide the error; so it is for one to three wrong bits, any odd number, and bursts of eight |
| `LinkErrors.PayloadErrorRejected` | `src/nocbridge/JTAGNOCBridgeInterface.cpp:384-429` | a frame whose header arrives intact is accepted if and only if the CRC-32 generator divides the error in its five payload words; bursts of at most 32 bits, in the order in which the checksum takes them, deliver nothing |
| `LinkErrors.BurstAcrossAccepted` | `src/nocbridge/JTAGNOCBridgeInterface.cpp:491-511` | with the words taken low bit first, every payload has an undetected burst of 31 bits across its end, because the bytes of the checksum word are reversed |
| `LinkErrors.MisreadFrame` | `src/nocbridge/JTAGNOCBridgeInterface.cpp:384-429` | that burst makes the receiver accept any sent frame with another message in it |
| `LinkBursts.WireBurstRejected` | `src/nocbridge/JTAGNOCBridgeInterface.cpp:384-429` | with the words taken low bit first, no burst of at most 30 bits in the five payload words of a sent frame is accepted, wherever it begins and ends |
| `LinkBursts.LongerBurstAccepted` | `src/nocbridge/JTAGNOCBridgeInterface.cpp:491-511` | 30 is the best: every payload has a burst of 31 bits that is accepted |
| `LinkBursts.RegistersDiffer` | `src/nocbridge/JTAGNOCBridgeInterface.cpp:491-505` | the registers of two payloads differ by what the errors alone, shifted in, make of a register of zeros |
| `JtagBridge.JTAGNOCBridgeInterface.constructor` | `src/nocbridge/JTAGNOCBridgeInterface.cpp:132-153` | all debug addresses are free, sequence and acknowledgement start at zero |
| `JtagBridge.JTAGNOCBridgeInterface.AllocateClientAddress` | `src/nocbridge/JTAGNOCBridgeInterface.cpp:163-175` | the lowest free address is taken, if there is one |
| `JtagBridge.JTAGNOCBridgeInterface.FreeClientAddress` | `src/nocbridge/JTAGNOCBridgeInterface.cpp:177-207` | a debug address is free afterwards; others are refused |
| `JtagBridge.JTAGNOCBridgeInterface.SendRPCMessage` | `src/nocbridge/JTAGNOCBridgeInterface.cpp:209-213` | the message is queued last |
| `JtagBridge.JTAGNOCBridgeInterface.RecvRPCMessage` | `src/nocbridge/JTAGNOCBridgeInterface.cpp:215-224` | the oldest received message is returned |
| `JtagBridge.JTAGNOCBridgeInterface.BuildFrame` | `src/nocbridge/JTAGNOCBridgeInterface.cpp:289-330` | the words of a frame with the current sequence number and acknowledgement |
| `JtagBridge.JTAGNOCBridgeInterface.Transmit` | `src/nocbridge/JTAGNOCBridgeInterface.cpp:235-346` | sends the oldest messages, at most four, then idle frames up to the buffer's size; frame i carries sequence number i mod 1024; nothing queued is lost |
| `JtagBridge.JTAGNOCBridgeInterface.Receive` | `src/nocbridge/JTAGNOCBridgeInterface.cpp:349-429` | the loop over the receive buffer is the deframer the link theorems are about |
| `JtagBridge.JTAGNOCBridgeInterface.Cycle` | `src/nocbridge/JTAGNOCBridgeInterface.cpp:235-429` | one Cycle: the messages of the frames it adds are the first four of the queue, or all if there are no more, and the rest stays queued; each frame carries the acknowledgement of before the Cycle; what comes back is deframed |
| `JtagBridge.JTAGNOCBridgeInterface.Cycles` | `src/nocswitch/JtagThread.cpp:48-51` | after k Cycles a queue of at most 4k messages is empty and everything ever queued has been sent, in order; a longer one has lost its first 4k |
| `JtagBridge.CycleSends` | `src/nocbridge/JTAGNOCBridgeInterface.cpp:262-343` | the same for the frames alone |
| `JtagBridge.LinkDeliversInOrder` | `src/nocbridge/JTAGNOCBridgeInterface.cpp:209-429` | after any calls, whoever deframes the words sent holds every message queued except those still waiting, in order |
| `NocSwitch.SwitchIsSafe` | `src/nocswitch/ConnectionThread.cpp:54-268` | in every interleaving of client threads and the JTAG thread: from waiting for a context's mutex to releasing it the JTAG thread has a live context that registered the destination, and it writes under that mutex; no address has two contexts; none of a finished connection's is in the map; whole units only; only debug sources and network destinations are queued, and which ones SwitchRequests.QueuedInOrder says |
| `NocSwitch.StepKeeps` | `src/nocswitch/JtagThread.cpp:55-77` | each lock, send and table step of either kind of thread keeps the invariant behind that |
| `NocSwitch.ConnStepKeeps` | `src/nocswitch/ConnectionThread.cpp:82-167` | the steps of a connection thread do |
| `NocSwitch.JtagStepKeeps` | `src/nocswitch/JtagThread.cpp:55-77` | the steps of the JTAG thread do |
| `NocSwitch.SendKept` | `src/nocswitch/ConnectionThread.cpp:91-109` | a successful send leaves the socket a concatenation of complete units and one begun unit |
| `NocSwitch.ConnHasAllKept` | `src/nocswitch/ConnectionThread.cpp:260-265` | cleaning up takes no other connection's address out of the map |
| `SwitchRequests.QueuedInOrder` | `src/nocswitch/ConnectionThread.cpp:123-155` | in every run exactly the messages that clients send with a source in the debug subnet and a destination outside it are queued for JTAG, each once, in the order they were sent |
| `SwitchRequests.MessageTaken` | `src/nocswitch/ConnectionThread.cpp:134-154` | a message with a source outside the debug subnet ends its connection, one to the subnet changes nothing, any other only joins the queue |
| `SwitchRequests.AnsweredInOrder` | `src/nocswitch/ConnectionThread.cpp:86-167` | in every run, while no send to a client has failed, it has been sent one reply of the right kind for every ping and every request for an address, in the order it asked, less the one in hand |
| `SwitchRequests.AddressTaken` | `src/nocswitch/ConnectionThread.cpp:95-97` | a request for an address takes the lowest free one, and is refused only when there is none |
| `SwitchRequests.ReplyOctets` | `src/nocswitch/ConnectionThread.cpp:91-109` | the octets of the replies |
| `SwitchDeadlock.DeadlockIsReachable` | `src/nocswitch/ConnectionThread.cpp:89-113` | a connection with a registered address that asks for another while one is free, and a message to the address it has, stop both threads |
| `SwitchDeadlock.DeadlockIsPermanent` | `src/nocswitch/JtagThread.cpp:58-70` | once the two threads wait for each other no run gets them apart |
| `SwitchDeadlock.DeadlockFromStart` | `src/nocswitch/ConnectionThread.cpp:54-167` | from the initial state, with two addresses to give, a run of one connection asking twice and one message to its first address gets there |
| `SwitchDeadlock.DeadlockPossibleIff` | `src/nocswitch/ConnectionThread.cpp:54-167` | from an initial state some run gets there if and only if at least two addresses are free |
| `SwitchDeadlock.NoDeadlockWhenAskedOnce` | `src/nocswitch/ConnectionThread.cpp:89-137` | no run gets there in which every connection asks for an address only while it has none |
| `SwitchDeadlock.HolderMoves` | `src/nocswitch/JtagThread.cpp:55-77` | in any other state of the invariant, whoever holds a mutex that is waited for can take a step, or waits for one who can |
| `SwitchDeadlock.OnlyCyclicWait` | `src/nocswitch/JtagThread.cpp:55-77` | it is the only cyclic wait, of any length |
| `SwitchDelivery.SentInOrder` | `src/nocswitch/JtagThread.cpp:52-77` | in every run all messages taken from the bridge are looked up in order, and while no send to a client has failed it has been sent, in that order, exactly those found to be for it, less the one on its way |
| `SwitchDelivery.LookupFinds` | `src/nocswitch/JtagThread.cpp:57-65` | a lookup finds the live connection that registered the address, and finds none only while there is none or its thread has still to enter it in the map |
| `SwitchClient.NOCSwitchInterface.ReadFramesUntil` | `src/nocbridge/NOCSwitchInterface.cpp:246-277` | messages ahead of the awaited opcode are queued in order and what follows it is left in the stream |
| `SwitchClient.NOCSwitchInterface.RecvRPCMessage` | `src/nocbridge/NOCSwitchInterface.cpp:105-132` | polling fails exactly when no message has arrived, and returns the oldest one |
| `SwitchClient.NOCSwitchInterface.RecvRPCMessageBlocking` | `src/nocbridge/NOCSwitchInterface.cpp:134-151` | returns the oldest message that has arrived, and waits, with nothing read, exactly while there is none |
| `SwitchClient.NOCSwitchInterface.AllocateClientAddress` | `src/nocbridge/NOCSwitchInterface.cpp:218-240` | returns the switch's answer and loses no message ahead of it |
| `SwitchClient.NextFrame` | `src/nocbridge/NOCSwitchInterface.cpp:258-271` | the first frame of a stream of messages is read back as its first message |
| `SwitchClient.BridgeMessagesFit` | `src/nocbridge/RPCMessage.cpp:101-110` | every message unpacked from words fits the byte form |
| `SwitchClient.Session` | `src/nocbridge/NOCSwitchInterface.cpp:105-240` | any mix of polling, blocking and allocating returns the messages of the stream in order, each once |
| `Ber.IntegerRoundTrip` | `legacy-trunk/src/asn1/BER.c:117-141` | decoding an encoded integer returns it if and only if no octet the masks skip lies below one they write |
| `Ber.SmallSurvives` | `legacy-trunk/src/asn1/BER.c:278-301` | all integers below 2^16 survive |
| `Ber.FirstLost` | `legacy-trunk/src/asn1/BER.c:278-301` | 0x10000 comes back as 0x100 |
| `Ber.ContentIsTwosComplement` | `legacy-trunk/src/asn1/BER.c:278-301` | the octets written for an integer are those that section 8.3 of X.690 wants if and only if it is below 2^31 and survives |
| `Ber.IntegerDecodes` | `legacy-trunk/src/asn1/BER.c:153-167` | an encoded integer in any message is read as far as it survives, and the position moves past it |
| `Ber.StringDecodes` | `legacy-trunk/src/asn1/BER.c:181-201` | a string of less than 65536 bytes is read back if it fits the buffer with its terminator, and fails else |
| `Ber.SequenceHeader` | `legacy-trunk/src/asn1/BER.c:50-104` | a constructed value's header is read as exactly the length of its content |
| `Ber.HeadersAre` | `legacy-trunk/src/asn1/BER.c:50-104` | what every header is read as, and when it cannot be |
| `Ber.ValuesFail` | `legacy-trunk/src/asn1/BER.c:117-201` | exactly when an integer or a string cannot be read |
| `Ber.NumberDecodes` | `legacy-trunk/src/asn1/BER.c:240-255` | a 16-bit number is read back |
| `Ber.NumbersDecode` | `legacy-trunk/src/asn1/BER.c:240-261` | numbers are read back exactly while the buffer has room |
| `Ber.OidDecodes` | `legacy-trunk/src/asn1/BER.c:216-267` | an identifier decodes to 1.3.6.1 and its numbers if and only if the buffer has eight words and room for all; 24 words hold twenty numbers |
| `Ber.LeadingOctet` | `legacy-trunk/src/asn1/BER.c:393-403` | the encoder writes a leading 0x80, which section 8.19.2 of X.690 forbids, exactly for 1024 to 16383 |
| `BerBuffers.BEREncodeInteger` | `legacy-trunk/src/asn1/BER.c:278-301` | writes the encoded integer at the position, its length patched in, and nothing else |
| `BerBuffers.BEREncodeString` | `legacy-trunk/src/asn1/BER.c:312-335` | writes the encoded string and strcpy's terminator |
| `BerBuffers.BEREncodeSequenceHeader` | `legacy-trunk/src/asn1/BER.c:345-357` | writes a header with a length still to come |
| `BerBuffers.BEREndSequence` | `legacy-trunk/src/asn1/BER.c:366-371` | patching the length turns header and content into a whole constructed value |
| `BerBuffers.BEREncodeOID` | `legacy-trunk/src/asn1/BER.c:380-407` | writes the encoded identifier, its length patched in |
| `BerBuffers.BERDecodeChunkHeader` | `legacy-trunk/src/asn1/BER.c:50-104` | the header decoder, including its failures |
| `BerBuffers.BERDecodeInteger` | `legacy-trunk/src/asn1/BER.c:117-141` | the integer decoder, including its failures |
| `BerBuffers.BERDecodeExpectedInteger` | `legacy-trunk/src/asn1/BER.c:153-167` | the decoder of a chunk that must be an integer |
| `BerBuffers.BERDecodeString` | `legacy-trunk/src/asn1/BER.c:181-201` | copies and terminates the string, or fails |
| `BerBuffers.BERDecodeOID` | `legacy-trunk/src/asn1/BER.c:216-267` | decodes the identifier into the buffer, or fails |
| `Snmp.GetReads` | `legacy-trunk/src/PDUFirmware/SNMP.c:201-325` | the agent reads back what the client built: id as far as it survives, identifier, kind; it drops the packet if and only if the community string differs |
| `Snmp.SetReads` | `legacy-trunk/src/PDUFirmware/SNMP.c:692-735` | the same for a SetRequest and its value |
| `Snmp.ResponseReads` | `legacy-trunk/src/pductrl/PDUController.cpp:555-627` | the client reads back id, table, index and value of a response with an integer if and only if its identifier has six numbers and its community string less than 32 bytes |
| `Snmp.OtherResponseFails` | `legacy-trunk/src/pductrl/PDUController.cpp:555-627` | a response with any other value is refused |
| `Snmp.OtherVersionDropped` | `legacy-trunk/src/PDUFirmware/SNMP.c:217-223` | agent and client drop a message whose version is not read as 1 |
| `Snmp.KindsTakenApart` | `legacy-trunk/src/PDUFirmware/SNMP.c:274-293` | the agent takes GetRequest, GetNextRequest and SetRequest for what they are and drops all other kinds, the client all but the response |
| `Snmp.MessageStarts` | `legacy-trunk/src/PDUFirmware/SNMP.c:505-530` | the first octets of every message built: the outer header, version 1, the community string |
| `SnmpBuffers.EndMessage` | `legacy-trunk/src/PDUFirmware/SNMP.c:527-530` | the four patched lengths turn the buffer into the nested message, each length delimiting exactly its content |
| `SnmpBuffers.ReadPreamble` | `legacy-trunk/src/PDUFirmware/SNMP.c:201-268` | reading up to the varbind list, including every way to fail |
| `SnmpBuffers.ReadOid` | `legacy-trunk/src/PDUFirmware/SNMP.c:306-325` | reading the varbind's identifier, including every way to fail |
| `SnmpClient.PDUController.NextRequestID` | `legacy-trunk/src/pductrl/PDUController.cpp:497-500` | ids count up modulo 2^32 and skip zero |
| `SnmpClient.PDUController.SendSnmpGetRequest` | `legacy-trunk/src/pductrl/PDUController.cpp:495-550` | the packet sent is the GetRequest for the table and index; the id returned, or zero when sending fails |
| `SnmpClient.PDUController.SendSnmpSetRequest` | `legacy-trunk/src/pductrl/PDUController.cpp:629-682` | the packet sent is the SetRequest |
| `SnmpClient.PDUController.RecvSnmpGetResponse` | `legacy-trunk/src/pductrl/PDUController.cpp:555-627` | what the client makes of a received packet, or of a failing recv |
| `SnmpClient.PDUController.BlockingSnmpSet` | `legacy-trunk/src/pductrl/PDUController.cpp:472-490` | true exactly when the reply carries the id, table, index and value sent |
| `SnmpAgent.SNMPGenerateGetPacketBody` | `legacy-trunk/src/PDUFirmware/SNMP.c:545-687` | the value octets of every entry, and of the two that do not exist, are those that SnmpValues.AnswerCarries reads back |
| `SnmpAgent.SNMPSendGetResponse` | `legacy-trunk/src/PDUFirmware/SNMP.c:485-540` | the packet sent is the GetResponse for the entry |
| `SnmpValues.AnswerCarries` | `legacy-trunk/src/PDUFirmware/SNMP.c:545-687` | what a reader of the packet finds in it: for entry 0 the software version, for entry 1 the device's identifier, for entry 3 the host name, for entry 4 the services 0x48, for the others the reading if and only if it survives; type 0x80 for no entry, type 0x82 past the last |
| `SnmpValues.ReadingsAre` | `legacy-trunk/src/PDUFirmware/SNMP.c:587-677` | which sensor, switch or setting an entry reads |
| `SnmpValues.EntryNames` | `legacy-trunk/src/PDUFirmware/SNMP.c:44-115` | the identifier of every entry |
| `SnmpValues.EntryAnswers` | `legacy-trunk/src/PDUFirmware/SNMP.c:323-352` | a GET is answered with an entry if and only if it names it, and otherwise with none; a GETNEXT with the first entry above, and otherwise with the end of the list |
| `SnmpValues.SetActs` | `legacy-trunk/src/PDUFirmware/SNMP.c:738-801` | a SET of a power switch, limit or inrush time with an integer writes that channel, except that a lockout holds power switches; without an integer it is refused |
| `SnmpValues.SetRefused` | `legacy-trunk/src/PDUFirmware/SNMP.c:722-798` | a SET of anything else is refused |
| `SnmpAgent.SNMPProcessPacket` | `legacy-trunk/src/PDUFirmware/SNMP.c:201-293` | what the agent does with any packet: drop, answer with an entry, or write |
| `SnmpAgent.SNMPProcessGetOrGetNextRequest` | `legacy-trunk/src/PDUFirmware/SNMP.c:298-352` | which entry answers |
| `SnmpAgent.SNMPProcessSetRequest` | `legacy-trunk/src/PDUFirmware/SNMP.c:692-802` | writes exactly the switches, limits and inrush timers, with an integer; a power switch is left alone during a voltage lockout |
| `SnmpAgent.AnswerNames` | `legacy-trunk/src/PDUFirmware/SNMP.c:321-352` | exactly when an answer carries the identifier that sections 4.2.1, 4.2.2 and 4.2.5 of RFC 3416 want: a GET of an entry; a GETNEXT below the last entry or of it; a SET of a writable entry with an integer, or of the last entry |
| `SnmpAgent.MisnamedAnswers` | `legacy-trunk/src/PDUFirmware/SNMP.c:485-540` | a GET, a GETNEXT and a SET whose answers carry another identifier |
| `SnmpAgent.TableIsSorted` | `legacy-trunk/src/PDUFirmware/SNMP.c:44-117` | the agent's fifty entries are in strictly increasing order |
| `SnmpTransaction.GetTransaction` | `legacy-trunk/src/pductrl/PDUController.cpp:457-470` | for every entry of the controller's tables: the agent selects it, and the client accepts the reply with the value read if and only if id and value survive |
| `SnmpTransaction.SetTransaction` | `legacy-trunk/src/pductrl/PDUController.cpp:472-490` | for every channel: the agent writes the value as far as it survives, unless a lockout holds; whatever the setting then reads, the client sees success if and only if the id survives and the reading arrives as the value, and for a setting that reads as written if and only if id and value survive |
| `OidTable.LessIsTotal` | `legacy-trunk/src/PDUFirmware/SNMP.c:449-480` | the order is total and irreflexive |
| `OidTable.LessIsTransitive` | `legacy-trunk/src/PDUFirmware/SNMP.c:449-480` | and transitive |
| `OidTable.SNMPCompareOIDs` | `legacy-trunk/src/PDUFirmware/SNMP.c:449-480` | -1, 0 or 1 as the first is less, equal or greater in lexicographic order, a prefix before its extensions |
| `OidTable.SNMPFindOID` | `legacy-trunk/src/PDUFirmware/SNMP.c:373-435` | below the table, at an entry, between two neighbours or above the table, as documented, for every query of five numbers or more; the last line is not reached |
| `OidTable.ClassifiedAbove` | `legacy-trunk/src/PDUFirmware/SNMP.c:354-372` | the classification is a hit if and only if an entry is the query, and says where the entries above it start |
| `OidTable.SelectEntry` | `legacy-trunk/src/PDUFirmware/SNMP.c:327-348` | GETNEXT selects the least entry strictly above the query, or the end (section 4.2.2 of RFC 3416); GET the entry itself |
| `OidTable.Walk` | `legacy-trunk/src/PDUFirmware/SNMP.c:331-348` | a walk from any start visits the entries above it, each once and in order, and ends |
| `ArpCache.ArpTable.ARPInitialize` | `legacy-trunk/src/PDUFirmware/ARP.c:60-66` | all rows are invalid and the toggle is zero |
| `ArpCache.ArpTable.ARPAddRecord` | `legacy-trunk/src/PDUFirmware/ARP.c:137-178` | the scan and the update in place are the closed form the theorems are about |
| `ArpCache.ArpTable.ARPLookupRecord` | `legacy-trunk/src/PDUFirmware/ARP.c:185-209` | the two rows of the set, and the broadcast address |
| `ArpCache.EveryRunIsPlaced` | `legacy-trunk/src/PDUFirmware/ARP.c:52-55` | in every run valid rows stand in their address's set and no address has two |
| `ArpCache.RecordAdded` | `legacy-trunk/src/PDUFirmware/ARP.c:137-178` | what adding a record does to every row: its own, those it drops because they have its MAC, and the others; and which way is next |
| `ArpCache.LookupFinds` | `legacy-trunk/src/PDUFirmware/ARP.c:195-208` | looking at two rows finds an address if and only if some row has it |
| `ArpCache.BroadcastFound` | `legacy-trunk/src/PDUFirmware/ARP.c:185-194` | the broadcast address is always found |
| `ArpCache.HitIsLastBinding` | `legacy-trunk/src/PDUFirmware/ARP.c:137-209` | in every run a hit is the last record of the address since initialisation |
| `ArpCache.LastRecordHits` | `legacy-trunk/src/PDUFirmware/ARP.c:137-209` | a lookup right after adding a record hits with it |
| `ArpCache.LostExactlyWhen` | `legacy-trunk/src/PDUFirmware/ARP.c:163-177` | adding a record loses another address if and only if that had the same MAC above the row found, or stood in the row taken |
| `ArpCache.EvictsWithRoomWhen` | `legacy-trunk/src/PDUFirmware/ARP.c:163-177` | a record pushes an address out of a set whose other row is free if and only if its own address is new and the row whose turn it is holds another under another MAC while its sibling is free |
| `ArpCache.EvictionRun` | `legacy-trunk/src/PDUFirmware/ARP.c:137-178` | records for addresses 0, 1 and 16 do that, from any memory |
| `ArpCache.OncePerMacWhen` | `legacy-trunk/src/PDUFirmware/ARP.c:137-178` | a table with each MAC address once stays one if and only if the recorded address is new or no row above its own has the recorded MAC |
| `ArpCache.TwoRowsRun` | `legacy-trunk/src/PDUFirmware/ARP.c:137-178` | three records that leave two valid rows with one MAC, from any memory |
| `Interrupts.Node.PushInterrupt` | `legacy-trunk/src/c-antikernel/RPCInterruptHelpers.c:66-79` | appends to the ring, or drops when 32 are queued |
| `Interrupts.Node.GetRPCInterrupt` | `legacy-trunk/src/c-antikernel/RPCInterruptHelpers.c:84-108` | the oldest queued interrupt, or else the next to arrive; it waits exactly while there is none |
| `Interrupts.Node.RPCFunctionCall` | `legacy-trunk/src/c-antikernel/RPCFunctionHelpers.c:52-113` | consumes up to the node's answer, returns its result, queues the interrupts met, and sends the call once and once more per retry; it waits exactly while the answer has not come |
| `Interrupts.AnswerIsFirst` | `legacy-trunk/src/c-antikernel/RPCFunctionHelpers.c:71-111` | a call ends with the first return, of either kind, from the node called |
| `Interrupts.RetriesAre` | `legacy-trunk/src/c-antikernel/RPCFunctionHelpers.c:89-94` | the call is sent once more for every wish of that node |
| `Interrupts.InterruptsAre` | `legacy-trunk/src/c-antikernel/RPCFunctionHelpers.c:77-108` | the interrupts kept are those that arrived, each once, where it stood |
| `Interrupts.Session` | `legacy-trunk/src/c-antikernel/RPCInterruptHelpers.c:48-108` | over any mix of calls and reads: the interrupts consumed and the reads, replayed in their order on a queue that keeps an arrival exactly when fewer than 32 are queued, give what is queued at the end and what was returned |
| `Interrupts.Conserved` | `legacy-trunk/src/c-antikernel/RPCInterruptHelpers.c:48-108` | in any such replay what was returned and then what is queued is what was queued and then the arrivals that were kept, in order |

## Left out

- NocSimulator.Simulation.Timestep: the first round-robin increment of the simulator does not wrap (sim/noc/GridRouter.cpp:259-266, sim/noc/QuadtreeRouter.cpp:198-206); the wrapped counter is modelled throughout, so an out-of-range counter is not.
- NocSimulator.Simulation.HostTimestep: what the CPU and the network interface send in their Timesteps is a parameter, so their state machines and random numbers are not modelled.
- NocSimulator.Simulation.HostAccepts: what the network interface answers is a parameter, for each router and clock.
- NocSimulator.Simulation.RunSimulation: packet numbers and hop counts exist only in the model, and the router a host hangs from is the function `Home`.
- NocCreation.CreateQuadtreeNetwork: the number of levels is a parameter, the simulator builds four; a router carries its height and number instead of its subnet's base, size and masks, which `QuadtreeTopology.Subnets` and `QuadtreeTopology.RoutesByMask` relate to them.
- Flatten.FlattenNetlist: names are path components without `/` and cell parameters are not carried along. A call that would not end is excluded (`PassesEnd`); so is a top module that contains an instance of itself, which the source rewrites while it copies from it.
- GF2NMath.GF2NMod: zero operands are outside its domain, because the degree scans look for a set bit; hence BCH.BCHEncode has no zero data.
- BCHDecode, which is a stub.
- JtagBridge.JTAGNOCBridgeInterface.Receive: after a bad header the two words are dropped and the loop ends, as in the source, but nothing is proved of what later chunks then give; the source marks this as unfinished.
- JtagBridge.JTAGNOCBridgeInterface.Cycles: dispatching what has been received between two Cycles is left to `NocSwitch`.
- JtagBridge.JTAGNOCBridgeInterface.Cycle: the JTAG shift is a function from words sent to words received; mutexes around single queue operations are not modelled.
- Crc32.CRC32: FlipEndian32Array is not part of this model; it is taken to reverse the four bytes of a word.
- LinkErrors.PayloadErrorRejected: the words of the checksum are given as bit vectors, whose values every word is; so it is with LinkBursts.WireBurstRejected.
- JtagBridge.JTAGNOCBridgeInterface.constructor: the debug subnet's bounds are parameters; JtagDebugBridge_addresses.yml is not part of this model.
- NAK and retransmission, credits and DMA messages, which the sources do not implement.
- NocSwitch.SwitchIsSafe: the threads are steps of one state machine rather than loops over real locks and sockets; sockets are byte sequences and a failing send leaves any bytes; an address granted to a connection that breaks off before the grant is sent stays taken, as in the source. Accepting connections, signals and logging are not modelled.
- SwitchClient.NOCSwitchInterface.ReadFramesUntil: says nothing of opcodes that the switch never sends, nor when the connection drops in the middle of a message; the source then uses a buffer that was never filled, whose bytes are zero here.
- SwitchClient.NOCSwitchInterface.RecvRPCMessageBlocking: a connection that drops during the wait is not told from one that stays silent; the variant with a timeout is not modelled, since it only repeats polling.
- Ber.OidDecodes: the length octet wraps for contents of 256 bytes or more; nothing is stated of those.
- BerBuffers.BERDecodeChunkHeader: a read past the end of the buffer is a failure here and undefined in the source; so it is in the other decoders.
- SnmpAgent.SNMPProcessPacket: identifiers of less than five numbers make the search read words that were never decoded; the action is then `ShortQuery` and says nothing.
- SnmpAgent.SNMPProcessGetOrGetNextRequest: says nothing of identifiers of less than five numbers, for the same reason.
- SnmpAgent.SNMPProcessSetRequest: says nothing of them either; the call behind a power switch is the action `Written`, not a message.
- OidTable.SNMPFindOID: needs a query of five numbers or more; the test for a truncated prefix is then never true and is not modelled.
- SnmpAgent.SNMPGenerateGetPacketBody: what each sensor, switch and setting reads, the uptime, host name and version string are parameters.
- Interrupts.Node.RPCFunctionCall: the message type codes are not part of this model and are an enumeration.
- ArpCache.ArpTable.ARPAddRecord: parsing of ARP frames and the probes sent are not modelled.
- DHCP, ICMP, IPv4 and UDP headers, sensors, GPIO and board files: mostly hardware calls.
- Rendering, statistics output, command lines, graphs, RunDRC and the file writers of drc.php: input and output only.
