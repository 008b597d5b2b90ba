# A verified model of the cjdns core

This project models the parts of cjdns whose correctness rests on an argument that no
single function states, and proves the properties that the design relies on. Run
`dafny verify dfyconfig.toml` here.

**The label switch** (`Bits`, `LabelBits`, `NumberCompress`, `Switching`, `Journeys`,
`Network`, `LabelSplicer`, `Routes`, `Deliveries`, `LongSplice`, `LongAnswer`,
`SwitchCore`). A 64-bit label is a queue of interface codes, read from the low end. At each
hop the switch shifts off the code of the destination and puts the bit-reversed code of the
source in at the high end. The main results: in any network of switches, each with any of
the three compression schemes, reversing the label of a packet at any point sends an answer
or an error packet back along exactly the same hops (`Network.ReturnPath`,
`Network.ErrorRetraces`); splicing labels is joining routes
(`LabelSplicer.SpliceJoinsPaths`), up to delivery under an exact condition, also for labels
that one node adapts for another (`Deliveries.SpliceIsDelivered`,
`Deliveries.SplicedAnswerIsDelivered`); and the slot table keeps slots, back pointers and
removal jobs in agreement under every sequence of additions, swaps and removals.

**The pipe** (`LittleEndian`, `Framing`, `PipeInterface`, `PipeResync`, `PipeNegotiation`).
The in-place framing buffer refines a stream parser however the stream is cut into reads
(`PipeInterface.StreamIsDelivered`), and two ends that negotiate a magic over two first-in
first-out pipes agree on the smaller one and never lose sync (`PipeNegotiation.EndsAgree`,
`PipeNegotiation.ReadingComesToRest`).

**The allocator** (`AllocatorTree`, `MallocAllocator`). Allocators linked by first-child and
sibling pointers, with back links, always form the tree they should; a recursive free takes
out exactly one subtree and runs its jobs from the top down; the space that is available and
the bytes that are held add up to a constant.

**The crypto session** (`ReplayProtector`, `CryptoSession`, `CryptoAnswers`, `CryptoAuth`).
Whether a packet decrypts is left open; the states, nonces and the replay window are those
of the code. The results hold over all runs: nonces of outgoing data rise by one, no
authenticated nonce is delivered twice, and where authentication is required nothing happens
before a recognized user's handshake has decrypted. The session object keeps this as its
invariant.

**Index and arithmetic parts** (`HandleMap`, `SessionManager`, `Base32`, `Checksum`,
`Fragmentation`, `AverageRoller`, with `Arithmetic`): each is compared with a definition
that says what it is for.

Code that changes state in place is modelled by classes and methods over arrays and fields.
Each is proved against a function of its former state, and the properties are proved of
those functions. A header, a word of memory or a network packet has the same fields, widths
and constants as in the code. What the outside decides is a parameter: the addresses that
the system's malloc returns, the bytes a read finds, the time, whether a packet decrypts,
whether an interface takes a packet.

## What the code does that one would not expect

* `LabelSplicer_splice` followed by the switch: a splice that fits can lead to a router
  whose switch refuses the packet, because the zeros that are left have no room for the code
  of the slot it comes in by. `Deliveries.UsedUpLabelIsDelivered` has the exact condition,
  `LongSplice.SpliceIsNotDelivered` an input.
* `LabelSplicer_getLabelFor` pushes the end of a long route out of the label;
  `Deliveries.LabelForFitsExactly` says of which. `LongAnswer.AnswerIsLost` is an input: the
  packet with such a label is refused one node early.
* `PipeInterface`: the loop of one read never ends for a header whose length field is
  0xFFFFFFF0, since in 32 bits the frame has length 0; for lengths above that a message of
  negative length is counted (`PipeInterface.WrappedIsNegative`).
  `PipeInterface.LoopsExactly` says exactly for which reads it does not end,
  `PipeInterface.EndlessLoop` is an input.
* `SwitchCore_addInterface`: the count of interfaces is never lowered. Once a slot was freed
  and used again, a full table is no longer refused: the search for a vacant slot runs past
  the end of the table. `SwitchCore.SwitchCore.AddInterface` has the exact condition, as the
  outcome `OutOfBounds`, and `SwitchCore.ReuseThenOverrun` is a run.
* `receiveMessage` in the switch: the check of the router's discriminator and the branch for
  a router code that is too wide can never drop a packet
  (`Switching.DiscriminatorIsNeverWrong`, `Switching.RouterCodeIsNarrow`).
* `LabelSplicer_routesThrough` and `LabelSplicer_splice` disagree for labels of more than 60
  bits; `LabelSplicer.SplicesExactly` says for which.
* `MallocAllocator_newWithIdentity`: a limit of 0, meant as no limit, always fails
  (`MallocAllocator.Allocator.New`).
* `cleanup` in the session manager drops every session during the first 600 seconds of the
  clock (`SessionManager.EarlyCleanupDropsAll`).
* `Map` remove: index -1 of an empty map, and nothing else, lowers the count below zero
  (`HandleMap.Map.RemoveAt`).
* `sendFragmented`: a packet that was already a later fragment, and only such a packet,
  loses its place (`Fragmentation.FormerOffsetIsLost`). With an mtu of 48 to 55 no payload
  fits and it calls itself with the message it was called with
  (`Fragmentation.RoundWithoutProgress`).
* `AverageRoller`: after a gap in the updates, seconds older than the window go on being
  counted; `AverageRoller.TotalsAreRecent` says exactly when, `AverageRoller.StaleTotals` is
  an input.
* `tryAuth`: a handshake that is then rejected can still switch a session to authenticated
  packets; `CryptoSession.RejectedSwitchesExactly` says which, and
  `CryptoSession.RejectedHelloSwitches` is one.
* `receiveMessage` in the session takes a data packet for the final step of a handshake in
  every state below 5: from 0 or 1 it leaves state 3 or 4, not an established session
  (`CryptoAnswers.DataIsAnswered`).
* `decryptHandshake`: where a message waits and the session has been idle, the handshake
  just accepted is forgotten and a new hello is sent (`CryptoAnswers.HandshakeIsAnswered`).

## Model

| member | source | states |
|---|---|---|
| Bits.ReverseMovesBits | include/cjdns/util/Bits.h:43-58 | bit i of the reversed word is bit 63 - i, for every word and every i |
| Bits.ReverseIsInvolution | include/cjdns/util/Bits.h:43-58 | reversing twice changes nothing |
| Bits.ReverseIsEndianSafe | include/cjdns/util/Bits.h:39-58 | reversing the big-endian form of a label gives the big-endian form of the reversed label, as the comment of the function promises |
| Bits.BitReverse64 | include/cjdns/util/Bits.h:43-58 | the six in-place stages put every bit in its mirrored place |
| Bits.Log2x64 | include/cjdns/util/Bits.h:25-32 | the loop counts the places by which a number other than 0 can be shifted right until just its highest bit is left |
| LabelBits.Log2IsHighestBit | include/cjdns/util/Bits.h:25-32 | that count is the position of the highest set bit: the bit is set and none above it is |
| Bits.MemMem | include/cjdns/util/Bits.h:162-185 | returns the first occurrence and no later one, and nothing exactly when there is none |
| NumberCompress.EveryLabelDecodes | include/cjdns/switch/NumberCompress.h:58-234 | in every scheme every label starts with a code: its number is in range, its canonical width fits, re-encoding gives the bits that were read; only 0001 is the router, in 4 bits |
| NumberCompress.CodesArePrefixCode | include/cjdns/switch/NumberCompress.h:58-234 | a number written with any sufficient width is read back from every label that has those bits at its low end, whatever follows |
| NumberCompress.CodeFits | include/cjdns/switch/NumberCompress.h:68-205 | a code has no bit above its width |
| NumberCompress.CodesOfDyn | include/cjdns/switch/NumberCompress.h:143-151 | the table of the dynamic scheme: suffix 1, 10 or 00 below three, five or eight bits of data, with 0 and 1 exchanged in the narrow code and no 1 in the others; 0001 for the router |
| NumberCompress.NarrowestOfDyn | include/cjdns/switch/NumberCompress.h:143-151 | and the range of numbers of each width |
| NumberCompress.CodesOfEight | include/cjdns/switch/NumberCompress.h:81-87 | the scheme of 8 bits: the low four bits above the high four, which are counted from 2 on, and the last number in the code that this leaves |
| Switching.RouterCodeIsNarrow | include/cjdns/switch/SwitchCore.c:208-220 | the branch for a router code wider than the destination code cannot be taken, in any scheme |
| Switching.DiscriminatorIsNeverWrong | include/cjdns/switch/SwitchCore.c:170-178 | a label that decodes to the router always ends in 0001, so that check never drops a packet |
| Switching.PassMeans | include/cjdns/switch/SwitchCore.c:160-227 | what is switched: the low bits are the code of the destination, and source and destination both fit in the bits that are shifted off |
| Switching.RefusedExactly | include/cjdns/switch/SwitchCore.c:183-227 | a packet is refused for its label exactly when the code of its source needs more bits than are shifted off |
| Switching.PeerCodePasses | include/cjdns/switch/SwitchCore.c:183-227 | a packet whose label starts with a peer code at least as wide as the source code is switched to that peer |
| Switching.RouterCodePasses | include/cjdns/switch/SwitchCore.c:183-207 | a label that starts with the discriminator and enough zeros is switched to the router, by the width of the source |
| Switching.ReversedShift | include/cjdns/switch/SwitchCore.c:240-243 | a switched label, reversed, is the reversed label moved up with the code of the source below it |
| Switching.ShiftBack | include/cjdns/switch/SwitchCore.c:240-243 | the switched label, reversed, starts with the source code, and shifting that off restores the reversed original |
| Switching.PeerHopInverse | include/cjdns/switch/SwitchCore.c:147-243 | per-hop inverse between peers and towards a router: the reversed label fed in at the destination is not dropped, comes out at the source and is the reversed original bit for bit |
| Switching.RouterHopReturns | include/cjdns/switch/SwitchCore.c:183-207 | a packet the router sent comes back to slot 1 from any destination |
| Switching.RouterHopInverse | include/cjdns/switch/SwitchCore.c:147-243 | from the router: the answer comes out at slot 1 with the label that was sent, its first code rewritten in canonical width |
| Switching.CanonicalUnchanged | include/cjdns/net/SwitchPinger.c:115-121 | that rewriting changes nothing exactly when the first code already had canonical width |
| Journeys.TravelExtends | include/cjdns/switch/SwitchCore.c:147-260 | a journey of n hops followed by the journey from where it got to is the longer journey |
| Journeys.AnswerRetraces | include/cjdns/switch/SwitchCore.c:106-141 | in any world of symmetric links and reversible hops: whatever hops a packet made, the answer makes exactly their mirror image |
| Network.HopIsReversible | include/cjdns/switch/SwitchCore.c:147-260 | every forwarded packet of every switch, whatever its scheme, can be sent back with the reversed label |
| Network.NetworkIsReversible | include/cjdns/switch/SwitchCore.c:147-260 | a network of switches with point-to-point links has symmetric links and reversible hops |
| Network.ReturnPath | include/cjdns/net/Ducttape.c:910-912 | for every network, label and number of hops: the packet with the reversed label retraces the hops backwards to the router that sent it, which reads its own label in canonical form |
| Network.PongHasSameLabel | include/cjdns/net/SwitchPinger.c:115-121 | the label comparison for pongs succeeds exactly when the first code of the pinged label has canonical width |
| Network.ErrorRetraces | include/cjdns/switch/SwitchCore.c:106-141 | an error packet sent by a switch that refuses a packet retraces the hops of the packet |
| LabelSplicer.SpliceJoinsPaths | include/cjdns/switch/LabelSplicer.h:30-40 | splicing is concatenation of bit strings: the label whose path is that of viaHere followed by that of goHere |
| LabelSplicer.PathOfSplice | include/cjdns/switch/LabelSplicer.h:30-40 | the path of a splice is the two paths in a row, and the lengths add |
| LabelSplicer.SpliceIsAssociative | include/cjdns/switch/LabelSplicer.h:30-40 | splicing is associative as long as nothing overflows |
| LabelSplicer.SpliceHasIdentity | include/cjdns/switch/LabelSplicer.h:30-40 | 1 is its identity on both sides |
| LabelSplicer.SpliceFitsOrFails | include/cjdns/switch/LabelSplicer.h:34-37 | the overflow value is returned exactly when the lengths add to more than 60 |
| LabelSplicer.RoutesThroughIsPrefix | include/cjdns/switch/LabelSplicer.h:89-96 | routesThrough holds exactly when the path of midPath begins the path of the destination |
| LabelSplicer.RoutesThroughMeansSpliced | include/cjdns/switch/LabelSplicer.h:89-96 | for labels of at most 60 bits: exactly when the destination is a splice of something onto midPath |
| LabelSplicer.SplicesExactly | include/cjdns/switch/LabelSplicer.h:30-40 | for all labels: what can be spliced onto midPath is what routes through it with at most 60 bits, and the overflow value; so routesThrough and splice agree on a longer label exactly when that value is where it routes through |
| LabelSplicer.LongRoutesAreNotSplices | include/cjdns/switch/LabelSplicer.h:89-96 | a family of labels of 61 to 63 bits that route through a node although no splice gives them |
| LabelSplicer.OneHopMeans | include/cjdns/switch/LabelSplicer.h:73-76 | isOneHop holds exactly when nothing but the marker is left after the first code |
| LabelSplicer.Widened | include/cjdns/switch/LabelSplicer.h:63-64 | masking, moving up and joining the wider code is putting that code below the rest of the label |
| LabelSplicer.LabelForNames | include/cjdns/switch/LabelSplicer.h:52-65 | the label that is handed out starts with a code for the same peer, no narrower than the one the asking node comes in by |
| LabelSplicer.JointIsNotDropped | include/cjdns/switch/LabelSplicer.h:42-65 | the label handed to an asking node is switched to the same interface, from every source that fits the code of the asking node |
| Routes.ShiftConsumesBits | include/cjdns/switch/SwitchCore.c:240-243 | a switch takes its code off the low end and leaves the other bits as they were below the code it pushes in |
| Routes.SameCodeSameInterface | include/cjdns/switch/NumberCompress.h:58-234 | labels that agree on the first code name the same interface |
| Routes.SameBitsSameWay | include/cjdns/switch/SwitchCore.c:147-260 | packets whose labels begin alike take the same way for as long as those bits last, over any number of hops |
| Routes.LabelIsQueue | include/cjdns/switch/SwitchCore.c:240-243 | over any journey between peers the label is a queue: its low end holds the bits that are left |
| Routes.SpliceFollowsVia | include/cjdns/switch/LabelSplicer.h:30-40 | a packet with the spliced label visits exactly the interfaces that viaHere visits, and then its label begins like goHere |
| Routes.SpliceContinuesAsGo | include/cjdns/switch/LabelSplicer.h:30-40 | and from there it makes the hops of a packet labelled goHere |
| Deliveries.UsedUpLabelIsDelivered | include/cjdns/switch/SwitchCore.c:170-207 | where the path of a packet of a router is used up, the next switch hands it to its own router exactly when the code of the slot it came in by fits into the zeros that are left, and otherwise answers that there is no return path |
| Deliveries.SpliceIsDelivered | include/cjdns/switch/LabelSplicer.h:30-40 | a packet with the splice of two labels makes the hops of both and the last one into the router at the end, that one exactly when the zeros that are left make room for the code of the slot |
| LongSplice.SpliceIsNotDelivered | include/cjdns/switch/SwitchCore.c:188-205 | the input for which it does not: two labels that deliver their packets, with a splice of 60 bits that is accepted and whose packet makes all hops but the last |
| Deliveries.LabelForKeepsRoute | include/cjdns/switch/LabelSplicer.h:63-64 | below its first code the label that getLabelFor hands out goes on with the bits of target, as far as they are not pushed out at the top |
| Deliveries.LabelForFitsExactly | include/cjdns/switch/LabelSplicer.h:63-64 | it has the path of target with a wider first code exactly when that path has at most 63 bits |
| LongAnswer.AnswerIsLost | include/cjdns/switch/LabelSplicer.h:52-65 | the input: a label for 15 hops, adapted for a first code of 10 bits, loses its end; the packet makes 14 hops and is refused by the node there |
| Deliveries.LabelForTakesSameWay | include/cjdns/switch/LabelSplicer.h:42-65 | the packet of the node that asked, arriving at the node that handed the label out, makes the hops that this node makes with the label it knows |
| Deliveries.SplicedAnswerIsDelivered | include/cjdns/switch/LabelSplicer.h:30-65 | and when the node that asked splices that label onto its route there, its packet makes the hops of both routes and is delivered, under the same exact condition |
| SwitchCore.JobList.NotOnFree | include/cjdns/memory/MallocAllocator.c:296-308 | takes exactly the given job off the list, and reports whether it was there |
| SwitchCore.WithoutMeans | include/cjdns/memory/MallocAllocator.c:296-308 | where no job is listed twice exactly the one job goes |
| SwitchCore.HandedOutLabel | include/cjdns/switch/SwitchCore.c:336-337 | the label with the canonical code of a slot is one hop and decodes to that slot |
| SwitchCore.SwitchCore.constructor | include/cjdns/switch/SwitchCore.c:71-78 | a new table is empty and well linked |
| SwitchCore.SwitchCore.AddInterface | include/cjdns/switch/SwitchCore.c:296-342 | the interface lands on the first vacant slot, never on slot 1 or an occupied one; refused and out-of-bounds outcomes have exact conditions; the count rises by one for each interface that was added; the label handed out is one hop to that slot |
| SwitchCore.ReuseThenOverrun | include/cjdns/switch/SwitchCore.c:296-342 | the run that goes out of bounds: a full table refuses an interface, one goes and its slot is used again, and the search for the next one runs past the end |
| SwitchCore.SwitchCore.Attach | include/cjdns/switch/SwitchCore.c:321-334 | filling a slot keeps slots, back pointers and removal jobs in one-to-one agreement |
| SwitchCore.SwitchCore.SetRouterInterface | include/cjdns/switch/SwitchCore.c:344-360 | the router takes slot 1 and nothing else changes |
| SwitchCore.SwitchCore.SwapInterfaces | include/cjdns/switch/SwitchCore.c:268-287 | two different peers change places with their back pointers and jobs; the asserts fail exactly for the router or for one and the same interface |
| SwitchCore.SwitchCore.TradePlaces | include/cjdns/switch/SwitchCore.c:276-286 | with both jobs off the lists, exchanging the slots and registering anew links everything again |
| SwitchCore.SwitchCore.FreeAllocator | include/cjdns/switch/SwitchCore.c:262-266 | freeing an allocator vacates exactly the slots of the interfaces it holds |
| SwitchCore.SwitchCore.ReceiveMessage | include/cjdns/switch/SwitchCore.c:147-260 | the label is the number on the wire, its first byte highest, on hosts of either byte order; the new label is put there and the packet passed on through an occupied slot as the switching function says; any other packet keeps its header and is answered with the reversed label, unless it is an error packet or a runt |
| SwitchCore.Route | include/cjdns/switch/SwitchCore.c:160-227 | the checks in their order decide as Decide; the asserts on the destination and on 4 bits for the router never fire |
| SwitchCore.ErrorLabelIsReversed | include/cjdns/switch/SwitchCore.c:129 | reversing the label as it stands in the header puts the reversed label on the wire, whatever the byte order |
| SwitchCore.ToHostIsOnWire | include/cjdns/switch/SwitchCore.c:162 | the word read from a header is the number whose bytes, highest first, are the bytes in memory, and what is put in stands there so, on either host |
| Bits.OnWireIs | include/cjdns/util/Endian.h:164-199 | a big-endian host holds what stands on the wire, a little-endian one its bytes in the opposite order |
| SwitchCore.SwitchCore.OccupiedIsAttached | include/cjdns/switch/SwitchCore.c:229 | an interface number is occupied exactly when something is attached to its slot |
| Framing.HeaderOf | include/cjdns/interface/PipeInterface.c:41-49 | the fields of a serialized frame are read back |
| Framing.WaitingHasRoom | include/cjdns/interface/PipeInterface.c:286-291 | a parser that waits holds less than the buffer has room for |
| Framing.ParseResumes | include/cjdns/interface/PipeInterface.c:286-295 | the parser can be stopped at any byte and taken up again |
| Framing.ParseAfterSerialize | include/cjdns/interface/PipeInterface.c:107-125 | parsing undoes serializing |
| Framing.SerializeAfterParse | include/cjdns/interface/PipeInterface.c:209-273 | frames and rest together are the stream |
| Framing.PrefixIsParsed | include/cjdns/interface/PipeInterface.c:209-273 | of any prefix of a stream exactly the whole frames are parsed |
| PipeInterface.RunIsParse | include/cjdns/interface/PipeInterface.c:209-273 | in sync, handling until nothing is left delivers the data payloads of the parsed frames in order, answers each ping, and keeps the unparsed rest |
| PipeInterface.ReadsAreParse | include/cjdns/interface/PipeInterface.c:286-300 | the same for any number of reads: how the stream is cut makes no difference |
| PipeInterface.StreamIsDelivered | include/cjdns/interface/PipeInterface.c:286-300 | frames written, cut anywhere and perhaps not all read: exactly the whole messages are passed up, in order; the buffer holds exactly what has come of the next frame and has room |
| PipeResync.FramesAfterNoise | include/cjdns/interface/PipeInterface.c:144-164 | frames, bytes in which the magic does not begin, and frames again: all messages are passed up in order, all pings answered, and one ping sent for the noise |
| PipeResync.SyncIsLost | include/cjdns/interface/PipeInterface.c:229-239 | where the magic does not occur, sync is lost, a ping is sent and nothing passed up |
| PipeResync.SyncIsFound | include/cjdns/interface/PipeInterface.c:275-284 | an end that has lost sync: the read in which the magic turns up and the next one pass up, together, what stands in the stream from the magic on |
| PipeInterface.HeaderIsEnough | include/cjdns/interface/PipeInterface.c:209-252 | a header settles the magic of an initializing end though its frame is not there yet |
| PipeInterface.Pipe.constructor | include/cjdns/interface/PipeInterface.c:349-389 | a new end is initializing and has sent a ping |
| PipeInterface.Pipe.SendMessage | include/cjdns/interface/PipeInterface.c:98-125 | writes the serialized frame, refuses while initializing, and fails exactly when the pipe takes fewer bytes |
| PipeInterface.Pipe.MoveToStart | include/cjdns/interface/PipeInterface.c:264-268 | the memmove leaves exactly the remaining bytes |
| PipeInterface.Pipe.TryReestablish | include/cjdns/interface/PipeInterface.c:144-164 | goes on from the first occurrence of the magic, if there is one |
| PipeInterface.Pipe.HandleMessage | include/cjdns/interface/PipeInterface.c:209-273 | the in-place handler has exactly the effects of the pure one, in all states and branches, also where the length of a frame wraps around in 32 bits |
| PipeInterface.LoopsExactly | include/cjdns/interface/PipeInterface.c:286-300 | the rounds of the loop of one read go on for ever exactly when a frame is met whose length, with its header, is 0 in 32 bits, and the pure run says so |
| PipeInterface.EndlessLoop | include/cjdns/interface/PipeInterface.c:236-270 | the input: after one header with length field 0xFFFFFFF0 every round leaves the buffer as it was and asks for another |
| PipeInterface.WrappedIsNegative | include/cjdns/interface/PipeInterface.c:247-257 | a length field less than 16 below 2^32: the frame is less than 16 bytes, and for data a message of a negative length is passed up |
| PipeInterface.Pipe.GetMessage | include/cjdns/interface/PipeInterface.c:286-300 | one event that ends: read, handle until nothing is left, and drop the rest of a read begun while initializing |
| PipeInterface.Pipe.GetMessageDesynced | include/cjdns/interface/PipeInterface.c:275-284 | one event while sync is lost |
| PipeInterface.FirstMatchIsMemMem | include/cjdns/util/Bits.h:162-185 | what the search returns is the first match |
| PipeNegotiation.ReceiveKeepsHalf | include/cjdns/interface/PipeInterface.c:209-262 | handling a frame keeps what is known of the receiver |
| PipeNegotiation.ReceiveKeepsOther | include/cjdns/interface/PipeInterface.c:209-262 | and, by what it writes in answer, of the sender |
| PipeNegotiation.EveryRunKeepsInv | include/cjdns/interface/PipeInterface.c:166-262 | the agreement invariant holds after every run of reads, pings and messages of both ends |
| PipeNegotiation.EndsAgree | include/cjdns/interface/PipeInterface.h:32-47 | over every interleaving: no end loses sync; once one is established both hold the smaller of the initial magics; when nothing is under way both are established; every message is passed up or under way, in order |
| PipeNegotiation.ReadingComesToRest | include/cjdns/interface/PipeInterface.c:209-262 | when the ends only read, what is under way runs out within a bounded number of frames |
| PipeNegotiation.HandleIsReact | include/cjdns/interface/PipeInterface.c:209-273 | on the bytes of a whole frame the handler does what the frame-level step does |
| PipeNegotiation.ReadIsReceives | include/cjdns/interface/PipeInterface.c:286-300 | a read of any number of whole frames is that many frame-level steps |
| AllocatorTree.GrowKeepsTree | include/cjdns/memory/MallocAllocator.c:241-270 | adding a first child keeps a well-formed tree |
| AllocatorTree.PruneKeepsTree | include/cjdns/memory/MallocAllocator.c:107-153 | taking a subtree out keeps a well-formed tree |
| AllocatorTree.BelowMeans | include/cjdns/memory/MallocAllocator.c:107-153 | below an allocator are exactly those from which the way up leads to it |
| AllocatorTree.PruneChildFirst | include/cjdns/memory/MallocAllocator.c:118-124 | freeing the first child first makes no difference to what is left once the parent is freed |
| AllocatorTree.VisitsAll | include/cjdns/memory/MallocAllocator.c:107-124 | the way through a subtree, each allocator before its children and the children in list order, comes to exactly what is below its top |
| AllocatorTree.VisitsOnce | include/cjdns/memory/MallocAllocator.c:107-124 | and to nothing twice |
| AllocatorTree.VisitsChildFirst | include/cjdns/memory/MallocAllocator.c:118-124 | once the first child is freed, what is left to visit is what came after the subtree of that child |
| MallocAllocator.LinksWithout | include/cjdns/memory/MallocAllocator.c:126-139 | taking a sibling out of a list links its neighbours to each other and changes no other link |
| MallocAllocator.NeighboursPointBack | include/cjdns/memory/MallocAllocator.c:126-139 | exactly the neighbours of a child point to it |
| MallocAllocator.PassedOver | include/cjdns/memory/MallocAllocator.c:126-139 | replacing every pointer to an allocator by its own gives the links of the tree without it |
| MallocAllocator.Space.LinkFirst | include/cjdns/memory/MallocAllocator.c:259-268 | the pointer updates put the child in front of its siblings |
| MallocAllocator.Space.Bypass | include/cjdns/memory/MallocAllocator.c:126-139 | the unlinking branches replace exactly the pointers to the allocator; the failure branch cannot be reached |
| MallocAllocator.Space.Unlink | include/cjdns/memory/MallocAllocator.c:126-139 | after unlinking a childless allocator the pointers are those of the pruned tree |
| MallocAllocator.Allocator.New | include/cjdns/memory/MallocAllocator.c:311-350 | a new family; fails exactly without memory or with limit 0, which becomes -1 as a signed number |
| MallocAllocator.Allocator.Malloc | include/cjdns/memory/MallocAllocator.c:83-104 | fails exactly when no more than the real size is left or there is no memory; otherwise one block and its bytes move from available to held |
| MallocAllocator.Allocator.Realloc | include/cjdns/memory/MallocAllocator.c:190-238 | replaces the block in its place and takes only what it grows by; exact conditions for failure; NULL is malloc |
| MallocAllocator.Allocator.Child | include/cjdns/memory/MallocAllocator.c:241-270 | grows the tree by one first child and takes the size of its own block from the shared space |
| MallocAllocator.Allocator.AddOnFreeJob | include/cjdns/memory/MallocAllocator.c:273-294 | appends the job and takes a block for it |
| MallocAllocator.Allocator.Free | include/cjdns/memory/MallocAllocator.c:107-153 | exactly the subtree leaves the tree and its bytes become available again; all links and the conservation of space hold afterwards; all its on-free jobs have run, those of each allocator in order and before those of its children, the children in list order |
| MallocAllocator.Allocator.FreeChildren | include/cjdns/memory/MallocAllocator.c:118-124 | the loop over the children leaves none, whatever the recursion does to the links, and runs the jobs of all below |
| MallocAllocator.Allocator.Release | include/cjdns/memory/MallocAllocator.c:141-152 | giving the blocks back keeps available plus held bytes constant |
| MallocAllocator.Allocator.BytesAllocated | include/cjdns/memory/MallocAllocator.c:352-356 | the held bytes of the whole family less the block of its first allocator |
| ReplayProtector.CheckMeans | include/cjdns/crypto/ReplayProtector.h:37-56 | a nonce passes exactly when it was never accepted and is at most 20 below the highest that was; the bitfield goes on standing for the accepted set and stays below 2^21 |
| ReplayProtector.HistoryDecides | include/cjdns/crypto/ReplayProtector.h:37-56 | the same after any history of calls |
| ReplayProtector.ReplayProtector.CheckNonce | include/cjdns/crypto/ReplayProtector.h:37-56 | the in-place check answers and updates accordingly, within 32 bits |
| ReplayProtector.ReplayProtector.Clear | include/cjdns/crypto/CryptoAuth.c:1058 | a cleared window stands for the empty set |
| CryptoSession.NoncesAreDisciplined | include/cjdns/crypto/CryptoAuth.c:556-614 | over every run: between lowerings of the state the nonces of data packets sent start at 4 or more and rise by one; handshake packets go out in order, with a new temporary key once and first; between clears of the window no authenticated nonce is delivered twice |
| CryptoSession.AnswerToHandshake | include/cjdns/crypto/CryptoAuth.c:583-612 | what is sent next after an accepted handshake: a key in answer to a hello, data under nonce 4 in answer to a key |
| CryptoSession.BufferedIsAnswer | include/cjdns/crypto/CryptoAuth.c:811-817 | a message that waited for the handshake goes out as that answer, once |
| CryptoSession.EntryKeeps | include/cjdns/crypto/CryptoAuth.c:828-884 | which next steps keep that discipline |
| CryptoSession.AuthenticationIsRequired | include/cjdns/crypto/CryptoAuth.c:672-696 | over every run of a session that requires authentication and knows no key: before a handshake naming a recognized user has decrypted, nothing is passed up, no key is learned, state 0 is not left |
| CryptoSession.UnlockedBy | include/cjdns/crypto/CryptoAuth.c:189-206 | what such a handshake is: it decrypts and names a user with a password hashed no further |
| CryptoSession.KeyIsPinned | include/cjdns/crypto/CryptoAuth.c:672-752 | the peer key changes only by a hello in state 0 or without a key, or by a request to connect |
| CryptoSession.HandshakeKeeps | include/cjdns/crypto/CryptoAuth.c:376-554 | a handshake packet or a request for a key can go out in every state below 4 without breaking that order |
| CryptoSession.AcceptKeeps | include/cjdns/crypto/CryptoAuth.c:784-826 | so can an accepted handshake, with the message that waited for it or with its content passed up |
| CryptoSession.SendSends | include/cjdns/crypto/CryptoAuth.c:576-614 | what becomes of a message: data under the next nonce once a handshake is complete, before that a handshake packet, or a request for the key while the message waits |
| CryptoSession.DataPassesUp | include/cjdns/crypto/CryptoAuth.c:632-653 | a data packet is passed up only if it decrypts, where that is checked, under a nonce not delivered since the window was cleared; else nothing is |
| CryptoSession.ReceivePassesUp | include/cjdns/crypto/CryptoAuth.c:828-884 | what is passed up is the content of the packet that came in, which was not rejected; nothing is replayed |
| CryptoSession.RejectedSwitchesExactly | include/cjdns/crypto/CryptoAuth.c:189-206 | exactly which handshakes that are rejected still switch the session to authenticated packets |
| CryptoSession.RejectedHelloSwitches | include/cjdns/crypto/CryptoAuth.c:189-206 | one of them: a hello without a password to a fresh session that requires one |
| CryptoAnswers.PacketIsAnswered | include/cjdns/crypto/CryptoAuth.c:828-884 | what a packet does, whatever it is: which are too short, which data is passed up, which handshakes are accepted, and the whole session that each of them leaves |
| CryptoAnswers.DataIsAnswered | include/cjdns/crypto/CryptoAuth.c:632-653 | a data packet is passed up, once, exactly when it is not to be authenticated, or decrypts under a nonce that is new and at most 20 below the highest delivered; the state rises by 3 in the final step; else an established session stays as it is, and one in the final step starts anew |
| CryptoAnswers.HandshakeIsAnswered | include/cjdns/crypto/CryptoAuth.c:672-826 | exactly which handshakes are accepted, by decryption, key and password, and what they leave: key, user, state, initiator, cleared window, time; or the waiting message that goes out in answer |
| CryptoAnswers.RequestIsAnswered | include/cjdns/crypto/CryptoAuth.c:672-688 | a request to connect is answered with an empty hello to the known peer, or else to the one that asks |
| CryptoAnswers.RuntsAreRefused | include/cjdns/crypto/CryptoAuth.c:828-838 | exactly which packets are refused for their length, and that they change nothing |
| CryptoAnswers.MessageIsSent | include/cjdns/crypto/CryptoAuth.c:576-614 | what becomes of a message and of the session, by its state, whether the peer is known, and whether it was idle |
| CryptoAnswers.IdleIsRestarted | include/cjdns/crypto/CryptoAuth.c:1061-1073 | a session is restarted exactly when there was no traffic for longer than the limit |
| CryptoAuth.Wrapper.constructor | include/cjdns/crypto/CryptoAuth.c:999-1033 | a session that keeps the discipline, and is guarded where it requires authentication and knows no key |
| CryptoAuth.Wrapper.Reset | include/cjdns/crypto/CryptoAuth.c:1052-1059 | after a reset the nonces sent, the nonces delivered and the handshakes start anew; discipline and guard are kept |
| CryptoAuth.Wrapper.GetState | include/cjdns/crypto/CryptoAuth.c:1061-1091 | restarts the session exactly when it was idle and changes nothing else, keeping discipline and guard, and reports the state that nextNonce stands for |
| CryptoAuth.Wrapper.SendMessage | include/cjdns/crypto/CryptoAuth.c:576-614 | the message goes out as data under the next nonce, rising by one, goes along with a handshake packet in order, or waits for the key, an idle session beginning with a hello again; nothing is passed up |
| CryptoAuth.Wrapper.ReceiveMessage | include/cjdns/crypto/CryptoAuth.c:828-884 | what a packet does is told by what it is, as CryptoAnswers.IsAnswered says; so it passes up the content of a packet that was neither rejected nor replayed; the key changes only where it may be learned; a guarded session stays locked until a recognized user was accepted |
| HandleMap.PutKeepsTable | include/cjdns/util/Map.h:168-221 | putting keeps keys distinct and handles rising |
| HandleMap.RemoveKeepsTable | include/cjdns/util/Map.h:130-166 | so does removing |
| HandleMap.PutKeepsHandles | include/cjdns/util/Map.h:168-221 | putting leaves every issued handle alone and gives a new one to a new key |
| HandleMap.RemoveKeepsHandles | include/cjdns/util/Map.h:130-166 | removing takes exactly the handle of the entry out of use |
| HandleMap.PutValues | include/cjdns/util/Map.h:168-221 | putting files the value under its key and leaves the other values alone |
| HandleMap.RemoveValues | include/cjdns/util/Map.h:130-166 | removing takes the value of the entry away, and no other |
| HandleMap.HandlesAreStable | include/cjdns/util/Map.h:93-221 | over every run an issued handle stands for the key it was issued for until a step removes its entry, and from then on for nothing |
| HandleMap.Map.IndexForKey | include/cjdns/util/Map.h:93-105 | finds the key exactly when it is there |
| HandleMap.Map.IndexForHandle | include/cjdns/util/Map.h:108-124 | the binary search ends and agrees with the linear one |
| HandleMap.Map.RemoveAt | include/cjdns/util/Map.h:130-166 | closes the gap in all arrays; -1 for an index that is none; except that exactly for index -1 of an empty map it reports success and the count becomes 4294967295 |
| HandleMap.Map.PutEntry | include/cjdns/util/Map.h:168-221 | a new key goes last with the next handle; the value of a known key is replaced |
| SessionManager.KeptMeans | include/cjdns/interface/SessionManager.c:68-80 | what cleanup keeps is exactly what is not older than the threshold |
| SessionManager.UnexpiredAreKept | include/cjdns/interface/SessionManager.c:72 | from second 600 of the clock on: exactly the sessions with a message in the last 600 seconds |
| SessionManager.EarlyCleanupDropsAll | include/cjdns/interface/SessionManager.c:72 | before that the unsigned difference wraps around and everything is dropped |
| SessionManager.SessionManager.Cleanup | include/cjdns/interface/SessionManager.c:68-80 | the loop that removes while it counts keeps exactly those, in order, and frees the allocators of the others |
| SessionManager.SessionManager.GetSession | include/cjdns/interface/SessionManager.c:82-130 | one session per address; a known one keeps address, handle, allocator, and its key unless it had none and one is given; a new one comes after a cleanup that keeps exactly the unexpired ones, with the next handle |
| SessionManager.KnownKeysStay | include/cjdns/interface/SessionManager.c:68-130 | over every run of lookups and cleanups: the session of a handle keeps its address, its allocator and, once known, its key, until it is dropped; then the handle stands for none |
| SessionManager.FreedMeans | include/cjdns/interface/SessionManager.c:72-75 | the allocators that are freed are those of the dropped sessions |
| SessionManager.SessionManager.SessionForHandle | include/cjdns/interface/SessionManager.c:132-137 | a handle leads to the session it was given to, or to none |
| Base32.CharIsDigit | include/cjdns/util/Base32.h:51-62 | the character tables are inverse |
| Base32.DigitIsChar | include/cjdns/util/Base32.h:51-62 | also the other way, up to letter case |
| Base32.CharsOfAlphabet | include/cjdns/util/Base32.h:118 | the characters are the digits and the letters without a, e, i and o, in order |
| Base32.CapitalsAreSmall | include/cjdns/util/Base32.h:51-62 | capital letters count as the small ones, and no other character for another |
| Base32.Encode | include/cjdns/util/Base32.h:109-147 | writes the base-32 digits, lowest first, of the number the bytes are; fails exactly when they do not fit |
| Base32.EmitWhole | include/cjdns/util/Base32.h:125-133 | the inner loop writes digits and keeps the rest of the number in the buffer |
| Base32.Decode | include/cjdns/util/Base32.h:44-96 | succeeds exactly for what is accepted and fits, with the bytes of the number; too big exactly when the valid characters overflow the output |
| Base32.OverflowMeans | include/cjdns/util/Base32.h:81-84 | for what is accepted, too big is said exactly when the bytes it stands for do not fit |
| Base32.DecodeAfterEncode | include/cjdns/util/Base32.h:44-147 | whatever is encoded is accepted and decodes to itself |
| Base32.EncodeAfterDecode | include/cjdns/util/Base32.h:44-147 | whatever is accepted encodes to itself in small letters |
| Base32.ParseAfterStringify | include/cjdns/crypto/Key.c:38-65 | a key that is written as text is read back |
| Base32.StringifyAfterParse | include/cjdns/crypto/Key.c:38-49 | exactly what is read as a key, and that it is written as it was read, in small letters |
| Checksum.SumsAgree | include/cjdns/util/Checksum.h:26-54 | accumulating and folding afterwards is the end-around-carry sum, for every length |
| Checksum.OddIsPadded | include/cjdns/util/Checksum.h:35-38 | an odd last byte counts as if a zero byte came after it, on either host |
| Checksum.SumIsBounded | include/cjdns/util/Checksum.h:26-40 | the bound that keeps the 32-bit accumulator from overflowing |
| Checksum.Step | include/cjdns/util/Checksum.h:26-40 | the loop adds the words in host order, and an odd byte as the first of a word |
| Checksum.Complete | include/cjdns/util/Checksum.h:47-53 | folding ends with the one representative and its complement |
| Checksum.Engine | include/cjdns/util/Checksum.h:63-67 | the checksum of RFC 1071, section 2, for every length up to 65535 |
| Checksum.Step32AddsWords | include/cjdns/util/Checksum.h:42-45 | adding both halves of a field adds its two words of memory |
| Checksum.Ip6 | include/cjdns/util/Checksum.h:81-98 | the checksum of the pseudo-header of section 8.1 of RFC 2460 and the packet; on the wire, from either host, that of the words of the addresses, both halves of the length, the type and the packet |
| Checksum.SumOfLength | include/cjdns/util/Checksum.h:92-93 | in network order the length adds its high and its low half |
| Checksum.CheckingAgainGivesZero | include/cjdns/util/Checksum.h:63-67 | with the checksum in its zeroed field, checking gives 0 |
| Checksum.ByteOrderDoesNotMatter | include/cjdns/util/Checksum.h:26-67 | hosts of either byte order leave the same bytes on the wire |
| Fragmentation.FragmentsReassemble | include/cjdns/interface/ICMP6Generator.c:96-153 | the fragments, put together as in section 4.5 of RFC 2460, where they must agree in addresses and identification, are the original payload |
| Fragmentation.FragmentsKeepHeaders | include/cjdns/interface/ICMP6Generator.c:101-148 | every fragment has the headers of the packet, addresses, hop limit, next header and identification, in all bytes but those of the payload length, the offset and the flag that more follows |
| Fragmentation.FragmentsAreSound | include/cjdns/interface/ICMP6Generator.c:96-153 | each fits the mtu and states its length; all but the last are as large as the mtu allows, carry a multiple of 8 bytes and are marked as followed by more; the last is marked as the packet was, its fields give the whole length, and it would not have fitted into the one before; a packet that fits is left whole |
| Fragmentation.FormerOffsetIsLost | include/cjdns/interface/ICMP6Generator.c:127-129 | the fragments of a packet are put together at the place the packet had exactly when its own offset was 0 |
| Fragmentation.SendFragmented | include/cjdns/interface/ICMP6Generator.c:96-153 | the recursion that moves the headers through the buffer ends, and sends exactly those fragments: put together they are the payload, and each has the headers of the packet |
| Fragmentation.SendPart | include/cjdns/interface/ICMP6Generator.c:101-136 | one fragment leaves, and the next message stands behind it with the saved headers |
| Fragmentation.RoundWithoutProgress | include/cjdns/interface/ICMP6Generator.c:96-153 | with an mtu of 48 to 55 an empty fragment leaves, and the call that follows is made with the same message, place and offset |
| Fragmentation.Incoming | include/cjdns/interface/ICMP6Generator.c:156-188 | which packets are passed on, cut up or answered |
| AverageRoller.CountedAfter | include/cjdns/util/AverageRoller.c:104-115 | an update changes what counts for its own residue class: it joins its second or replaces an earlier one |
| AverageRoller.AverageRoller.UpdateWith | include/cjdns/util/AverageRoller.c:100-123 | over whole histories with a clock that does not go back: count and sum are those of the last windowSeconds seconds exactly, for the count, when no residue class has its latest update before them; the average is their quotient |
| AverageRoller.TotalsAreRecent | include/cjdns/util/AverageRoller.c:46-50 | the totals are those of the seconds of the window, as documented, exactly when no residue class has its latest update before them |
| AverageRoller.StaleTotals | include/cjdns/util/AverageRoller.c:100-123 | the input: a window of 3 seconds that in second 5 still counts the 6 of second 1 |

## Left out

* The switch: priorities, flood protection and congestion, the 256-byte limit and the
  checksum of error packets, logging.
- SwitchCore.SwitchCore.SwapInterfaces: after one of its asserts has failed the original aborts, so nothing is promised of the state then.
- SwitchCore.SwitchCore.FreeAllocator: the lists of jobs carry only the removal jobs of switch slots here; children and blocks are in MallocAllocator.
* The pipe: how much of a ping or pong the pipe takes (it is taken whole), the flags for
  lag and for waiting, the ping timer as such, disconnections.
- PipeInterface.Pipe.HandleMessage: after sync is found again the frame is handled in the next round of the loop, not in the same one, which differs only for fewer than 16 bytes, where the original reads bytes left over in the buffer.
- PipeInterface.Pipe.GetMessage: the reads that never end are excluded, which are exactly those that PipeInterface.LoopsExactly names.
* The pipe while sync is lost, and parts of frames while initializing: bytes are dropped
  there, so nothing is said about chunks.
* Upper layers that change the buffer of the message they are given.
* The allocator: sizes that overflow a signed 64-bit number, the fill of freed memory,
  identity checks, file names and lines, what on-free jobs do to the tree.
- MallocAllocator.Allocator.Realloc: the block that holds an allocator is not to be reallocated; its new address would not be known to others.
* The crypto session: keys, secrets and their derivation, passwords and their removal,
  padding, the wrap-around of the 32-bit nonce and of 32-bit times, upper layers that send
  while they receive.
- ReplayProtector.ReplayProtector.CheckNonce: words are numbers with digit-wise operations, not bit vectors.
* The handle map: hash codes other than the last four bytes, maps without keys or without
  handles, capacities, the wrap-around of handles.
* The session manager: wrapping of interfaces; an allocator is a number.
* Base 32: words of the encoder and decoder are numbers whose parts do not overlap.
* Keys: the check of the address that belongs to a key.
* Fragmentation: the content of the packet-too-big answer, handlers that write past the
  fragment they are given.
- Fragmentation.SendFragmented: mtu values below 56 are excluded; for 48 to 55 the recursion never ends, see Fragmentation.RoundWithoutProgress, and below 48 the unsigned difference wraps around and the next message is shifted the other way, which is not part of this model.
- Fragmentation.Incoming: the same exclusion.
- AverageRoller.AverageRoller.UpdateWith: sums that overflow 32 bits and clocks that go back are excluded.
* Sockets, tunnels, admin calls, event loops, the router module and the benc format.
