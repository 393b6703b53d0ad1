# Verification of the RF24 mesh stack

A Dafny model of the radio mesh stack (the RF24 driver, RF24Network and
RF24Mesh) and of the text layer it is used with, together with proofs of what
they promise.  `dafny verify dfyconfig.toml` checks everything.

| file | what it models |
|---|---|
| `Basics.dfy`, `Fates.dfy` | what several parts use; calls and the acknowledgements behind them |
| `Bits.dfy` | 16-bit words, masks and shifts as arithmetic |
| `OctalTree.dfy` | node addresses as digit sequences of any depth, and routing between them |
| `OctalValue.dfy` | the same addresses as numbers; the address filter |
| `NodeRouting.dfy` | the masks one node caches, and the next-hop decision made with them |
| `PhysicalPipes.dfy` | the five-byte radio addresses, and who hears what |
| `NetworkAck.dfy` | the network acknowledgement as a state machine over a lossy network |
| `NetworkRuns.dfy` | the same without loss: everything sent arrives and is acknowledged |
| `WaitingSource.dfy`, `LateAcks.dfy` | what a waiting source may conclude from the result of its call, and what it may not |
| `Fragments.dfy` | cutting a long message into frames, and sending them one by one or in a burst |
| `LinuxAssembly.dfy` | reassembly with one partial message per sender |
| `Stm32Assembly.dfy` | reassembly with a single slot |
| `LongMessages.dfy` | long messages from end to end: what success tells, and what the receivers make of gaps |
| `FrameQueue.dfy` | the byte queue of received frames, packed and padded |
| `Radio.dfy` | the radio driver over the chip's registers |
| `Delivery.dfy` | where a payload is sent, who hears it, who answers and who waits |
| `Processing.dfy` | what one frame, one `update`, one wait, one `write` and one long message come to |
| `DriverProtocol.dfy` | the driver carries out the protocol: packets, results of waits, system frames, fragments |
| `NetworkDriver.dfy` | the network layer driving the radio: start, send, relay, wait, update |
| `LeaseTable.dfy`, `Joining.dfy` | the mesh master's table of address leases; joining by polling |
| `StreamSearch.dfy` | searching a byte stream for several targets at once |
| `Numerals.dfy`, `IntegerText.dfy` | printing integers fast and plainly, and reading them back |
| `TextReplace.dfy` | replacing text in place |
| `Dns.dfy` | the DNS client's question, and its walk through a reply |

## How it is put together

Addresses are sequences of octal digits, the digit next to the master first.
`OctalTree` proves routing for digit sequences of any depth; `OctalValue` and
`NodeRouting` prove that the 16-bit mask arithmetic of the code computes the
same thing, and `PhysicalPipes` that the address a hop is sent to is listened
to by the next hop alone.  `NetworkAck` then runs the network as a state
machine in which any transmission may be lost, or arrive without its sender
learning it; `NetworkRuns` proves what a network without loss delivers, and
`WaitingSource` and `LateAcks` what a call that waited tells.  `NetworkDriver`
has the methods of the network layer over the registers of the chip, with a
log of every frame given to the radio and of everything it reports, and a
record of everything the node is told.  `Processing` says what these are after
each call, and `DriverProtocol` that they are the packets of the state machine
and that a call that waits goes by the acknowledgements that came in.
`LongMessages` puts the loop that sends fragments, the acknowledgements of
`LateAcks` and the two ways of reassembly together.

Objects that the code updates in place are classes with the same fields, and
loops are loops.  Each such method is proved against a function or predicate
on values, and the lemmas are about those.

Eight results are about where the code does not do what one would expect.
Each is an exact condition, and where the condition is not plain enough there
is an input that fails it:

- The single-slot receiver loses a message none of whose fragments is lost
  when the message takes all 64 fragments and the 63rd one is received twice:
  the repetition no longer fits, and the size check comes before the check for
  repetitions.  `Stm32Assembly.FragmentRoundTrip` says exactly when;
  `ReportedButLost` has a run in which one acknowledgement is lost, the sender
  reports success and nothing is delivered.
- The room check for single frames (RF24Network.cpp:515) leaves out the ten
  bytes in front of the payload, the one for assembled messages (line 481)
  does not.  `FrameQueue.PlainGuardExact` says exactly when it is right;
  `PlainGuardTooWeak` fills a queue so that it is wrong.
- `printULLNumber` prints nothing for zero, its reference form prints "0"
  (`Numerals.FastAgreesWithPlain`).
- The allocator also answers requests forwarded by a node of the fourth level,
  with an address that no node may have (`LeaseTable.GrantNamesChild`); it does
  so for every such node on an empty table (`FourthLevelGrant`).  Nodes that
  join by polling never ask through one, and all addresses in the table are
  then those of nodes (`Joining.PolledRunsSafe`): it takes a request that is
  sent to the fourth level by other means.
- `multicast` takes the levels 0 to 4, but the address of level 4 does not pass
  the address filter and nothing is sent (`Delivery.LevelSendable`).  A relay
  passes a multicast on to the next level at the levels 1 and 2 only
  (`RelaySendable`): at level 3 the filter stops it, and at the master the
  shifted address is again the master's own.
- The loop that waits for an acknowledgement (RF24Network.cpp:906) takes any.
  The calls of a source can show just those results in which no more of them
  have returned true than frames have arrived (`LateAcks.RunsExactly`).  From
  the true result of a message of one frame the caller of the public `write`
  may conclude that it was accepted if and only if it has so far, of messages
  that may be acknowledged, only sent those of one frame along the tree and was
  told true for each (`LateAcks.ResultsDecide`).  After a false result, after a
  fragmented message whatever its result, and after a message sent directly to
  a relay, an acknowledgement may be left over and end the wait for a message
  that nobody received (`LateAcknowledgement`).
- A fragmented message over several hops may be reported as sent with fragments
  missing, each paid for by an earlier one that was received twice
  (`LongMessages.SuccessExactly`).  The single-slot receiver takes the last
  fragment without looking at the countdown (line 453), and completes a message
  with a hole if and only if the first and the last fragment were heard and
  another was not (`Stm32Assembly.HoleExactly`).  That is possible for messages
  of more than two fragments (`LongMessages.HolePossible`); `HoleAfterLateAck`
  has a run, on which the other receiver hands out nothing.  Fragments that are
  not acknowledged at all need no such accident (`UnacknowledgedHole`).
- The DNS client's walk over the questions of a reply ends exactly when the
  packet holds the end of every name (`Dns.QuestionsTerminate`), whatever its
  variables hold at first; on others it may go on for ever, and on one that is
  cut inside a name it does (`CutInsideName`).

## Model

| member | source | states |
|---|---|---|
| `OctalTree.NextHopCloser` | RF24EthernetTemplate/Drivers/RF24Network/RF24Network.cpp:945-971 | forwarding follows an edge of the tree and lowers the distance to the destination by exactly one, for addresses of any depth |
| `OctalTree.NextHopOnly` | RF24EthernetTemplate/Drivers/RF24Network/RF24Network.cpp:945-971 | no other neighbour is closer: the next hop is forced |
| `OctalTree.NeighbourDist` | RF24EthernetTemplate/Drivers/RF24Network/RF24Network.cpp:945-971 | crossing any edge changes the distance to any node by exactly one |
| `OctalTree.RouteDelivers` | RF24EthernetTemplate/Drivers/RF24Network/RF24Network.cpp:171-240 | a frame forwarded by every node on its way arrives after exactly as many hops as the tree distance, each hop being the forwarding decision of the node it leaves |
| `OctalTree.RouteNeverRevisits` | RF24EthernetTemplate/Drivers/RF24Network/RF24Network.cpp:171-240 | no node is visited twice |
| `OctalTree.NoShorterWalk` | RF24EthernetTemplate/Drivers/RF24Network/RF24Network.cpp:935-975 | the distance is the real one: no walk along the tree is shorter than the route |
| `OctalTree.RouteStaysInTree` | RF24EthernetTemplate/Drivers/RF24Network/RF24Network.cpp:935-975 | between tree addresses the route stays among tree addresses no deeper than its ends, and has at most twice that depth in hops |
| `OctalTree.RelayStep` | RF24EthernetTemplate/Drivers/RF24Network/RF24Network.cpp:171-240 | a relay on the route hands on to the next node of the route; the one whose next hop is the destination is the first hop of the way back |
| `OctalValue.ValueOfDigits` | RF24EthernetTemplate/Drivers/RF24Network/RF24Network.cpp:1132-1141 | a number is given back by its octal digits |
| `OctalValue.DigitsOfValue` | RF24EthernetTemplate/Drivers/RF24Network/RF24Network.cpp:1132-1141 | digits without a zero at the top are given back by their number |
| `OctalValue.ValueSplit` | RF24EthernetTemplate/Drivers/RF24Network/RF24Network.cpp:1112-1117 | cutting a number at digit k: the low digits are the remainder by 8^k, the high digits the quotient |
| `OctalValue.LevelBounds` | RF24EthernetTemplate/Drivers/RF24Network/RF24Network.cpp:1025-1036 | magnitude and number of digits agree |
| `OctalValue.NodeNameFits` | RF24EthernetTemplate/Drivers/RF24Network/RF24Network.cpp:1122-1148 | a name of at most four digits fits 12 bits and is recovered from its number |
| `OctalValue.IsValidAddress` | RF24EthernetTemplate/Drivers/RF24Network/RF24Network.cpp:1122-1148 | the filter passes exactly the names of at most four digits 1 to 5, and the two multicast spellings 0100 and 010 |
| `NodeRouting.CheckMaskTest` | RF24EthernetTemplate/Drivers/RF24Network/RF24Network.cpp:1057-1061 | the shifted 16-bit mask sees an address exactly when the address has more digits than the mask skips |
| `NodeRouting.PrefixByRemainder` | RF24EthernetTemplate/Drivers/RF24Network/RF24Network.cpp:1041-1044 | a name is a prefix of another exactly when the other leaves it as remainder by the power of 8 of its length |
| `NodeRouting.MaskedPrefix` | RF24EthernetTemplate/Drivers/RF24Network/RF24Network.cpp:1041-1044 | masking with the node mask compares prefixes |
| `NodeRouting.MaskedDepth` | RF24EthernetTemplate/Drivers/RF24Network/RF24Network.cpp:1025-1036 | the inverted and shifted mask, computed in 16 bits, tests for more than one further digit |
| `NodeRouting.MaskedCut` | RF24EthernetTemplate/Drivers/RF24Network/RF24Network.cpp:1112-1117 | the child mask keeps one digit more than the node has |
| `NodeRouting.ParentMasks` | RF24EthernetTemplate/Drivers/RF24Network/RF24Network.cpp:1067-1073 | the mask shifted right by one digit yields the parent, and the digit above it the pipe |
| `NodeRouting.RouteFits` | RF24EthernetTemplate/Drivers/RF24Network/RF24Network.cpp:935-975 | with four levels a route has at most eight hops and no address along it is truncated |
| `NodeRouting.Node.FindDepth` | RF24EthernetTemplate/Drivers/RF24Network/RF24Network.cpp:1052-1062 | the mask loop finds the number of digits |
| `NodeRouting.Node.SetupAddress` | RF24EthernetTemplate/Drivers/RF24Network/RF24Network.cpp:1049-1089 | parent is the name without its top digit, parent pipe that digit, level the depth, for every address of up to five digits; the level for all addresses |
| `NodeRouting.Node.TopDigit` | RF24EthernetTemplate/Drivers/RF24Network/RF24Network.cpp:1075-1082 | the second loop leaves the top digit |
| `NodeRouting.Node.DescendantIsPrefix` | RF24EthernetTemplate/Drivers/RF24Network/RF24Network.cpp:1041-1044 | a descendant is a node whose name extends ours |
| `NodeRouting.Node.DirectChildIsOneDeeper` | RF24EthernetTemplate/Drivers/RF24Network/RF24Network.cpp:1025-1036 | the direct-child test means at most one digit more than ours |
| `NodeRouting.Node.RouteChildIsPrefix` | RF24EthernetTemplate/Drivers/RF24Network/RF24Network.cpp:1112-1117 | the child to relay by is the destination's name cut one digit below ours |
| `NodeRouting.Node.LogicalToPhysicalAddress` | RF24EthernetTemplate/Drivers/RF24Network/RF24Network.cpp:935-975 | the mask arithmetic computes the tree's next hop and the pipe: 5 at a child, our own pipe at the parent, 0 for direct payloads |
| `PhysicalPipes.PipeAddress` | RF24EthernetTemplate/Drivers/RF24Network/RF24Network.cpp:1181-1213 | the in-place digit loop spells the five address bytes of a pipe |
| `PhysicalPipes.AddressBytes` | RF24EthernetTemplate/Drivers/RF24Network/RF24Network.cpp:1181-1213 | the five bytes in full of spelled-out and of level addresses |
| `PhysicalPipes.SharedAddress` | RF24EthernetTemplate/Drivers/RF24Network/RF24Network.cpp:1181-1213 | two pipes share a radio address exactly when they are the same pipe of the same node, or both pipe 0 of nodes on one level below the master |
| `PhysicalPipes.SpelledUnique` | RF24EthernetTemplate/Drivers/RF24Network/RF24Network.cpp:1181-1213 | from a spelled-out address the name and the pipe can be read back |
| `PhysicalPipes.OnlyNextHopHears` | RF24EthernetTemplate/Drivers/RF24Network/RF24Network.cpp:945-971 | of all nodes and pipes exactly the next hop, on exactly the chosen pipe, listens to the address of a routed hop |
| `PhysicalPipes.UpperBytesShared` | RF24EthernetTemplate/Drivers/RF24/RF24.cpp:1604-1612 | pipes 2 to 5 may borrow their upper bytes from pipe 1 |
| `PhysicalPipes.LevelAddressLevel` | RF24EthernetTemplate/Drivers/RF24Network/RF24Network.cpp:1165-1175 | the address of a level is a one in the digit of that level |
| `PhysicalPipes.LevelAddressHeard` | RF24EthernetTemplate/Drivers/RF24Network/RF24Network.cpp:1165-1213 | the address of a level is listened to by exactly the nodes of that level, on pipe 0 |
| `NetworkAck.NextKeepsInv` | RF24EthernetTemplate/Drivers/RF24Network/RF24Network.cpp:843-915 | every step of the network, sending, relaying, reading, with any transmission lost or unconfirmed, keeps the protocol invariant |
| `NetworkAck.AckSafety` | RF24EthernetTemplate/Drivers/RF24Network/RF24Network.cpp:843-915 | over every run a message is read at most once, acknowledged at most once, only after its destination's radio took it, and only by the node next to the destination on the way back |
| `NetworkAck.RunKeepsInv` | RF24EthernetTemplate/Drivers/RF24Network/RF24Network.cpp:843-915 | the invariant holds after every run |
| `NetworkAck.SourceWaits` | RF24EthernetTemplate/Drivers/RF24Network/RF24Network.cpp:895-914 | the source waits exactly when its hop was confirmed, the type asks for it and the destination is more than one hop away |
| `NetworkAck.OnlyLastRelayAcks` | RF24EthernetTemplate/Drivers/RF24Network/RF24Network.cpp:868-892 | of the relays on the way exactly the last one answers, and nobody answers an acknowledgement or waits for one of it |
| `NetworkAck.PlainDelivery` | RF24EthernetTemplate/Drivers/RF24Network/RF24Network.cpp:171-240 | without loss a frame that asks for no acknowledgement is read after one step per hop and one more |
| `NetworkAck.DataLeg` | RF24EthernetTemplate/Drivers/RF24Network/RF24Network.cpp:171-240 | a frame in flight is after n steps n hops closer, and still on the route |
| `NetworkAck.AckLeg` | RF24EthernetTemplate/Drivers/RF24Network/RF24Network.cpp:868-892 | the acknowledgement finds its way back to the source |
| `NetworkRuns.WorkIsConserved` | RF24EthernetTemplate/Drivers/RF24Network/RF24Network.cpp:171-240 | over every run without loss, the work left in the air and the frames processed make up what the messages cost to deliver and acknowledge |
| `NetworkRuns.EverythingArrives` | RF24EthernetTemplate/Drivers/RF24Network/RF24Network.cpp:171-240 | without loss and for any messages between any nodes, sent and relayed in any order: processing never outlasts the cost of the messages, until then a frame is left to process, and then every message has been read once and, where asked for, its one acknowledgement by its source |
| `NetworkRuns.AckRoundTrip` | RF24EthernetTemplate/Drivers/RF24Network/RF24Network.cpp:843-915 | without loss a message over d > 1 hops is read once and its acknowledgement is read once by the source, after 2d - 1 further steps |
| `WaitingSource.TrueMeansAccepted` | RF24EthernetTemplate/Drivers/RF24Network/RF24Network.cpp:895-914 | over every run, lossy or not: a waiting call that returned true tells that the destination's radio took the frame, if all earlier frames of that node that may be acknowledged went along the tree and their calls returned true |
| `WaitingSource.HappensKeepsInv` | RF24EthernetTemplate/Drivers/RF24Network/RF24Network.cpp:895-914 | every step, direct send, stray acknowledgement and timeout keeps this: of the first frames of a source, with none sent directly, no more calls returned true than acknowledgements were read |
| `LateAcks.RunsExactly` | RF24EthernetTemplate/Drivers/RF24Network/RF24Network.cpp:895-914 | for every sequence of fates, arrived or not and true or false: there is a run in which the calls of a source over several hops have them if and only if at no point more calls have returned true than frames have arrived |
| `LateAcks.ResultsDecide` | RF24EthernetTemplate/Drivers/RF24Network/RF24Network.cpp:690-914 | over the results of the public write, single frames, fragmented messages and frames sent directly to a relay: a true result for a message of one frame means in every run that it was accepted, if and only if all before it were single frames along the tree and true |
| `LateAcks.LateAcknowledgement` | RF24EthernetTemplate/Drivers/RF24Network/RF24Network.cpp:906-912 | for every other history of writes there is a run that looks just like it in which the true result is for a message nobody received |
| `Fates.TakenIsCredible` | RF24EthernetTemplate/Drivers/RF24Network/RF24Network.cpp:895-914 | the calls of a sender that is backed by acknowledgements are such a sequence, as far as they go |
| `Fates.CredibleIsBacked` | RF24EthernetTemplate/Drivers/RF24Network/RF24Network.cpp:895-914 | and every such sequence is that of a backed sender |
| `Fragments.CountBounds` | RF24EthernetTemplate/Drivers/RF24Network/RF24Network.cpp:708-710 | a message of 25 to 1514 bytes takes 2 to 64 fragments of 24 bytes |
| `Fragments.ChunkExtends` | RF24EthernetTemplate/Drivers/RF24Network/RF24Network.cpp:742-747 | the chunks in order make up the message |
| `Fragments.NextFragment` | RF24EthernetTemplate/Drivers/RF24Network/RF24Network.cpp:727-747 | the loop body fills in header and chunk of the next fragment |
| `Fragments.SendFragments` | RF24EthernetTemplate/Drivers/RF24Network/RF24Network.cpp:721-768 | for every fate of the single calls, heard or not and reported or not, what is received (in a burst: queued) is the fragments in order, each as often as its up to three attempts got through, and success is reported exactly when the call for every one returned true |
| `Fragments.SendingShape` | RF24EthernetTemplate/Drivers/RF24Network/RF24Network.cpp:721-768 | no fragment is received more than three times, and all are tried when sending goes through |
| `Fragments.SincereShape` | RF24EthernetTemplate/Drivers/RF24Network/RF24Network.cpp:721-768 | where no call returns true for a fragment that was not received, all but the last one tried are received, and all on success |
| `Fragments.SendingPaid` | RF24EthernetTemplate/Drivers/RF24Network/RF24Network.cpp:721-768 | where each call that returns true has an acknowledgement to show for it, its own or an earlier one: of the fragments reported at any time at least as many copies were received |
| `Fragments.WriteLong` | RF24EthernetTemplate/Drivers/RF24Network/RF24Network.cpp:690-786 | a message over 1514 bytes is refused unsent; otherwise fragments are received in order, each any number of times, and success means that the call for every one returned true, and in a burst that the queue was drained |
| `Fragments.BurstReceived` | RF24EthernetTemplate/Drivers/RF24Network/RF24Network.cpp:690-786 | a burst that reports success has been received in full, every fragment at least once |
| `LinuxAssembly.Receiver.Append` | RF24EthernetTemplate/Drivers/RF24Network/RF24Network.cpp:339-409 | the per-sender cache is updated as the specification says, and the result tells whether the fragment was used |
| `LinuxAssembly.Receiver.EnqueueFrame` | RF24EthernetTemplate/Drivers/RF24Network/RF24Network.cpp:257-334 | queues and cache after any frame, and its result |
| `LinuxAssembly.WholeFrameQueued` | RF24EthernetTemplate/Drivers/RF24Network/RF24Network.cpp:266-318 | a frame that is no fragment is appended to the queue of its type, a frame of the node itself to the frame queue if it has an id, and nothing else changes |
| `LinuxAssembly.WholeFramesKept` | RF24EthernetTemplate/Drivers/RF24Network/RF24Network.cpp:257-334 | over any arrivals the whole frames are in the queue of their type as often as they arrived, and in order; all else there was added by last fragments, at most one each |
| `LinuxAssembly.Meets` | RF24EthernetTemplate/Drivers/RF24Network/RF24Network.cpp:343-407 | a fragment is used exactly when it is the next one of the partial message of its sender and id |
| `LinuxAssembly.Starts` | RF24EthernetTemplate/Drivers/RF24Network/RF24Network.cpp:343-407 | without a partial message of its sender and id only a first fragment is used |
| `LinuxAssembly.EnqueueKeepsInv` | RF24EthernetTemplate/Drivers/RF24Network/RF24Network.cpp:257-409 | every frame from the air keeps each cache entry a true beginning and each queued frame genuine |
| `LinuxAssembly.ReassemblySafe` | RF24EthernetTemplate/Drivers/RF24Network/RF24Network.cpp:257-409 | under loss, duplication, reordering and interleaving of senders every frame handed out equals in bytes, length and type what its sender sent |
| `LinuxAssembly.FeedDelivers` | RF24EthernetTemplate/Drivers/RF24Network/RF24Network.cpp:257-409 | how often a message is handed out: once for every time its fragments can be picked up in order |
| `LinuxAssembly.DeliveredExactly` | RF24EthernetTemplate/Drivers/RF24Network/RF24Network.cpp:257-409 | a message is delivered if and only if its fragments arrive in order as a subsequence of the arrivals |
| `LinuxAssembly.StutteredHandedOut` | RF24EthernetTemplate/Drivers/RF24Network/RF24Network.cpp:257-409 | fragments in order, each any number of times: the queues take in exactly the message, once, if and only if every fragment was heard |
| `FrameQueue.HeaderRoundTrip` | RF24EthernetTemplate/Drivers/RF24Network/RF24Network.cpp:516-518 | the eight header bytes are read back |
| `FrameQueue.PrefixBytes` | RF24EthernetTemplate/Drivers/RF24Network/RF24Network.cpp:516-518 | the ten bytes in front of a payload, one by one |
| `FrameQueue.EncodingUnique` | RF24EthernetTemplate/Drivers/RF24Network/RF24Network.cpp:481-491 | the bytes of the queue determine the frames in it |
| `FrameQueue.EncodesAppend` | RF24EthernetTemplate/Drivers/RF24Network/RF24Network.cpp:481-491 | appending a padded record appends its frame |
| `FrameQueue.EncodedSize` | RF24EthernetTemplate/Drivers/RF24Network/RF24Network.cpp:522-528 | the used length stays a multiple of four, and is zero only for the empty queue |
| `FrameQueue.AssembledGuardExact` | RF24EthernetTemplate/Drivers/RF24Network/RF24Network.cpp:481-484 | the guard for assembled messages holds exactly when header, size, payload and padding fit |
| `FrameQueue.PlainGuardExact` | RF24EthernetTemplate/Drivers/RF24Network/RF24Network.cpp:515-528 | for single frames the guard is right exactly when payload and used bytes leave ten bytes |
| `FrameQueue.PlainGuardTooWeak` | RF24EthernetTemplate/Drivers/RF24Network/RF24Network.cpp:515-518 | after an assembled message of 1490 bytes has been queued, a frame of 24 bytes passes the guard and does not fit |
| `FrameQueue.Queue.EnqueueAssembled` | RF24EthernetTemplate/Drivers/RF24Network/RF24Network.cpp:481-494 | an assembled message is appended whole exactly when the guard admits it |
| `FrameQueue.Queue.EnqueuePlain` | RF24EthernetTemplate/Drivers/RF24Network/RF24Network.cpp:515-536 | a single frame is queued exactly when its padded record fits, refused exactly when the guard says so, and runs over the end of the buffer exactly in the last ten bytes between the two |
| `FrameQueue.Queue.Peek` | RF24EthernetTemplate/Drivers/RF24Network/RF24Network.cpp:589-609 | shows the oldest frame and changes nothing: the payload from its start, as much as there is and the caller has room for |
| `FrameQueue.Queue.Read` | RF24EthernetTemplate/Drivers/RF24Network/RF24Network.cpp:614-664 | hands out the oldest frame in the same way, tells its full size, and removes exactly that one |
| `Stm32Assembly.Receiver.AppendFragment` | RF24EthernetTemplate/Drivers/RF24Network/RF24Network.cpp:429-468 | one fragment into the slot, never past the buffer |
| `Stm32Assembly.Receiver.EnqueueFragment` | RF24EthernetTemplate/Drivers/RF24Network/RF24Network.cpp:418-494 | slot, queue and result after any fragment |
| `Stm32Assembly.FirstCopies` | RF24EthernetTemplate/Drivers/RF24Network/RF24Network.cpp:431-441 | a first fragment starts the slot over, whatever was in it and however often it comes |
| `Stm32Assembly.MiddleCopies` | RF24EthernetTemplate/Drivers/RF24Network/RF24Network.cpp:444-466 | a repeated middle fragment is dropped, except that a repeated 63rd one no longer fits and gives the slot up |
| `Stm32Assembly.LastCopies` | RF24EthernetTemplate/Drivers/RF24Network/RF24Network.cpp:444-468 | the last fragment completes the message once, however often it comes |
| `Stm32Assembly.FragmentRoundTrip` | RF24EthernetTemplate/Drivers/RF24Network/RF24Network.cpp:429-476 | fragments in order, each one or more times: the original message is completed exactly once, if and only if not both the message takes 64 fragments and fragment 62 (counted from 0) is repeated |
| `Stm32Assembly.ReassembledWithGaps` | RF24EthernetTemplate/Drivers/RF24Network/RF24Network.cpp:429-476 | fragments in order, each any number of times: when the first and the last are heard, what comes before the first gap is completed together with the last, otherwise nothing; the repetition of fragment 62 matters only without a gap |
| `Stm32Assembly.HoleExactly` | RF24EthernetTemplate/Drivers/RF24Network/RF24Network.cpp:453-453 | something other than the message is completed if and only if the first and the last fragment were heard and one between them was not |
| `Stm32Assembly.SentAndReassembled` | RF24EthernetTemplate/Drivers/RF24Network/RF24Network.cpp:429-476 | sender, channel and receiver together, for all calls that are backed by acknowledgements and whatever was in the slot: exactly this is completed |
| `Stm32Assembly.Reassembled` | RF24EthernetTemplate/Drivers/RF24Network/RF24Network.cpp:429-476 | from any beginning of the fragments in order, whatever was in the slot: the message once or nothing, and exactly when |
| `Stm32Assembly.BurstReassembled` | RF24EthernetTemplate/Drivers/RF24Network/RF24Network.cpp:756-768 | the same for a burst; one that reported success is completed unless the 63rd fragment was repeated |
| `Stm32Assembly.ReportedButLost` | RF24EthernetTemplate/Drivers/RF24Network/RF24Network.cpp:444-449 | every message over 1512 bytes: if only the acknowledgement of transmission 62 is lost, the sender reports success and nothing is completed |
| `Stm32Assembly.LastTakenAnytime` | RF24EthernetTemplate/Drivers/RF24Network/RF24Network.cpp:453-453 | the last fragment is taken at any point, and completes the message exactly when nothing is missing before it |
| `LongMessages.SuccessExactly` | RF24EthernetTemplate/Drivers/RF24Network/RF24Network.cpp:721-786 | a sender may report success with given receptions of the fragments if and only if none was received more than three times, and of any number of first fragments at least as many copies were, counting acknowledgements left over |
| `LongMessages.HolePossible` | RF24EthernetTemplate/Drivers/RF24Network/RF24Network.cpp:453-453 | a message with a hole can be completed while its sender reports success if and only if it has more than 48 bytes |
| `LongMessages.SuccessWithNothing` | RF24EthernetTemplate/Drivers/RF24Network/RF24Network.cpp:721-786 | for every long message there is a way to report success although nothing is completed |
| `LongMessages.HoleAfterLateAck` | RF24EthernetTemplate/Drivers/RF24Network/RF24Network.cpp:453-453 | for every message of more than 48 bytes a run of the network whose late acknowledgement makes the sender report success: the single-slot receiver completes the first fragment followed by the last, the other hands out nothing |
| `LongMessages.UnacknowledgedHole` | RF24EthernetTemplate/Drivers/RF24Network/RF24Network.cpp:815-834 | fragments sent directly or to a level: always reported as sent, and something else is completed exactly when the first and the last were heard and another not |
| `Radio.RF24.StartListening` | RF24EthernetTemplate/Drivers/RF24/RF24.cpp:1159-1176 | receive mode, with pipe 0 restored to its own address or closed |
| `Radio.RF24.StopListening` | RF24EthernetTemplate/Drivers/RF24/RF24.cpp:1183-1204 | out of receive mode, pipe 0 open |
| `Radio.RF24.PowerUp` | RF24EthernetTemplate/Drivers/RF24/RF24.cpp:1218-1230 | CONFIG is written only if the driver believes the chip is down |
| `Radio.RF24.OpenReadingPipe` | RF24EthernetTemplate/Drivers/RF24/RF24.cpp:1595-1619 | pipes 0 and 1 store five bytes, pipes 2 to 5 one; pipe 0's address is remembered |
| `Radio.RF24.OpenWritingPipe` | RF24EthernetTemplate/Drivers/RF24/RF24.cpp:1571-1578 | the transmit address overwrites pipe 0 |
| `Radio.RF24.CloseReadingPipe` | RF24EthernetTemplate/Drivers/RF24/RF24.cpp:1665-1672 | the pipe's enable bit is cleared; closing pipe 0 forgets its address |
| `Radio.RF24.SetAutoAck` | RF24EthernetTemplate/Drivers/RF24/RF24.cpp:1820-1835 | one bit of the auto-ack register |
| `Radio.RF24.WriteFast` | RF24EthernetTemplate/Drivers/RF24/RF24.cpp:1340-1369 | a payload is queued for the transmit address unless the queue is stuck |
| `Radio.RF24.ListensToOwn` | RF24EthernetTemplate/Drivers/RF24/RF24.cpp:1595-1619 | a tuned radio listens to the node's own address on every pipe |
| `Delivery.OwnPipes` | RF24EthernetTemplate/Drivers/RF24Network/RF24Network.cpp:105-108 | the five bytes of pipes 0 and 1 and one byte each of the others are the addresses of all six pipes |
| `NetworkDriver.ESBNetwork.Begin` | RF24EthernetTemplate/Drivers/RF24Network/RF24Network.cpp:74-111 | a valid address leaves the radio listening on all six pipes at the node's addresses, auto-ack off on pipe 0 and on elsewhere |
| `NetworkDriver.ESBNetwork.OpenPipes` | RF24EthernetTemplate/Drivers/RF24Network/RF24Network.cpp:105-108 | the loop from pipe 5 down to 0 leaves every register as it should be |
| `NetworkDriver.ESBNetwork.WriteToPipe` | RF24EthernetTemplate/Drivers/RF24Network/RF24Network.cpp:980-1010 | the frame goes to the address of the given pipe with or without acknowledgement as asked; in a burst only the first fragment aims, and the others are still aimed right |
| `NetworkDriver.ESBNetwork.SendTowards` | RF24EthernetTemplate/Drivers/RF24Network/RF24Network.cpp:855-861 | one hop: the frame in the buffer is sent to the next hop's radio address |
| `NetworkDriver.ESBNetwork.SendAndAnswer` | RF24EthernetTemplate/Drivers/RF24Network/RF24Network.cpp:855-892 | what goes on the air is the frame in the buffer, and from the last relay of an acknowledged frame one acknowledgement for its source; a wait follows exactly where one is due |
| `NetworkDriver.ESBNetwork.AnswerSource` | RF24EthernetTemplate/Drivers/RF24Network/RF24Network.cpp:872-892 | the answer is the relayed header with type NETWORK_ACK and turned round to its source, and nothing else, sent towards the source |
| `NetworkDriver.ESBNetwork.Write` | RF24EthernetTemplate/Drivers/RF24Network/RF24Network.cpp:843-930 | what goes on the air, in order and frame by frame, is the hop, the answer, and what comes of the updates of a wait; it returns whether the hop worked out and, after a wait, whether an acknowledgement came; an address that does not pass the filter changes nothing; no call that may wait is made while another waits, and it terminates |
| `NetworkDriver.ESBNetwork.Update` | RF24EthernetTemplate/Drivers/RF24Network/RF24Network.cpp:127-251 | the log is the old one and, frame after frame, exactly what each frame calls for; it ends when there is no more frame, one stops it, or after a second; it returns the value set last; with a clock that advances it terminates although it calls the sender that calls it |
| `NetworkDriver.ESBNetwork.ProcessFrame` | RF24EthernetTemplate/Drivers/RF24Network/RF24Network.cpp:145-240 | what one frame calls for: too short or badly addressed, nothing; for this node, for a level or for another node, what these say; the value to return and whether to stop |
| `NetworkDriver.ESBNetwork.Relay` | RF24EthernetTemplate/Drivers/RF24Network/RF24Network.cpp:235-240 | a frame for another node goes on towards it, once, with the answer that is due |
| `NetworkDriver.ESBNetwork.AwaitAck` | RF24EthernetTemplate/Drivers/RF24Network/RF24Network.cpp:903-914 | it returns true if and only if its last update returned NETWORK_ACK, no earlier one having done so, and false only after more than 75 ms |
| `NetworkDriver.ESBNetwork.ProcessOwn` | RF24EthernetTemplate/Drivers/RF24Network/RF24Network.cpp:171-200 | a frame for this node makes it send only when it is an address answer or an address request, and then exactly the one frame that passes it on; otherwise it is shown to the caller or queued |
| `NetworkDriver.ESBNetwork.ProcessMulticast` | RF24EthernetTemplate/Drivers/RF24Network/RF24Network.cpp:204-234 | a frame for a level makes the node send exactly the answer to a poll or the frame that relays it, without waiting, and all but polls are queued |
| `NetworkDriver.ESBNetwork.SendFrame` | RF24EthernetTemplate/Drivers/RF24Network/RF24Network.cpp:791-838 | the send type is chosen by destination and direct-write argument, and the given header and payload go out for it in the name of this node |
| `NetworkDriver.ESBNetwork.WriteMessage` | RF24EthernetTemplate/Drivers/RF24Network/RF24Network.cpp:690-786 | every return leaves the radio listening on all six pipes at the own addresses of the node, pipe 0 restored and silent, and CONFIG as the driver believes it; what goes on the air and what is returned are, for a short message, those of one call of `write` for one frame, for a long one those of the turns of the fragment loop and of the drained burst, and over 1514 bytes nothing and false |
| `NetworkDriver.ESBNetwork.SendAll` | RF24EthernetTemplate/Drivers/RF24Network/RF24Network.cpp:708-768 | the loop over the fragments: each turn sends the fragment it is at, up to three times, and the next after a call that returned true; all are sent if and only if the last one is |
| `Delivery.IntendedHeard` | RF24EthernetTemplate/Drivers/RF24Network/RF24Network.cpp:935-1010 | what is sent along the tree is heard by the next hop alone; what is sent directly, by the pipe 0 of all nodes on the destination's level |
| `DriverProtocol.SameDecisions` | RF24EthernetTemplate/Drivers/RF24Network/RF24Network.cpp:868-914 | whichever way a frame is sent, the driver answers and waits in the cases in which the protocol model does |
| `DriverProtocol.ProtocolAgrees` | RF24EthernetTemplate/Drivers/RF24Network/RF24Network.cpp:843-915 | what the driver puts on the air for a frame along the tree are, header by header and by who hears them, exactly the packets of the protocol model, the acknowledgement included, and both wait in the same cases |
| `DriverProtocol.PassingForwarded` | RF24EthernetTemplate/Drivers/RF24Network/RF24Network.cpp:235-240 | so it is for a frame between other nodes that `update` takes: it is forwarded as the protocol says, and neither queued nor reported |
| `DriverProtocol.TakesAreAll` | RF24EthernetTemplate/Drivers/RF24Network/RF24Network.cpp:132-150 | the frames a session of `update` accounts for are all that the radio handed out, in order, and those queued are all that went to `enqueue` |
| `DriverProtocol.PutsInOrder` | RF24EthernetTemplate/Drivers/RF24Network/RF24Network.cpp:132-240 | what each of them calls for is on the air, after what the earlier ones called for |
| `DriverProtocol.OwnAckStops` | RF24EthernetTemplate/Drivers/RF24Network/RF24Network.cpp:171-194 | an acknowledgement for this node sends nothing, stops `update` and is its result |
| `DriverProtocol.AckSeen` | RF24EthernetTemplate/Drivers/RF24Network/RF24Network.cpp:903-914 | a wait that returns true has in its last update taken an acknowledgement: for this node, for a level, or any if the node has no address |
| `DriverProtocol.OwnAckAnswers` | RF24EthernetTemplate/Drivers/RF24Network/RF24Network.cpp:903-914 | a wait in which an acknowledgement for this node comes in returns true, and takes no frame after it |
| `DriverProtocol.WaitingResult` | RF24EthernetTemplate/Drivers/RF24Network/RF24Network.cpp:843-930 | what `write` returns: the result of its hop if it does not wait; if it waits, true when an acknowledgement for this node came in, and only when some acknowledgement did |
| `DriverProtocol.AnswerGoesDown` | RF24EthernetTemplate/Drivers/RF24Network/RF24Network.cpp:175-182 | an address answer goes on to pipe 0 of exactly the fourth level, with the destination 04444 and otherwise as it came |
| `DriverProtocol.RequestGoesUp` | RF24EthernetTemplate/Drivers/RF24Network/RF24Network.cpp:183-188 | a request for an address goes on to exactly the parent, from this node to the master and otherwise as it came |
| `DriverProtocol.PollGoesBack` | RF24EthernetTemplate/Drivers/RF24Network/RF24Network.cpp:205-218 | a poll is answered to pipe 0 of exactly the level of the polling node, from this node and otherwise as it came, unless the node has no address or answers are turned off |
| `DriverProtocol.MulticastKept` | RF24EthernetTemplate/Drivers/RF24Network/RF24Network.cpp:220-233 | any other frame for a level is queued, and may be passed down |
| `DriverProtocol.OneLevelDown` | RF24EthernetTemplate/Drivers/RF24Network/RF24Network.cpp:222-230 | a relay at the levels 1 and 2 passes it down as it is, to pipe 0 of exactly the next level; others than relays and higher levels pass nothing |
| `DriverProtocol.OwnFrameKept` | RF24EthernetTemplate/Drivers/RF24Network/RF24Network.cpp:171-199 | which other frames for this node are dropped, shown to the caller and queued, by their type; none of them sends anything |
| `DriverProtocol.LoopAgrees` | RF24EthernetTemplate/Drivers/RF24Network/RF24Network.cpp:708-785 | the driver reports a long message as sent exactly when the loop of `Fragments.SendFragments` does for the same results of its calls, and a burst is drained |
| `DriverProtocol.FragmentDone` | RF24EthernetTemplate/Drivers/RF24Network/RF24Network.cpp:721-768 | every fragment the loop has got past was sent by a call that returned true |
| `DriverProtocol.NeighbourBurst` | RF24EthernetTemplate/Drivers/RF24Network/RF24Network.cpp:690-786 | a long message to a neighbour or sent directly is on the air as its first fragments, each once, in order and to one place, and then the report of the radio; it is reported as sent exactly when these are all and the report is good |
| `Delivery.LevelSendable` | RF24EthernetTemplate/Drivers/RF24Network/RF24Network.cpp:670-675 | of the levels 0 to 4 that may be asked for, the address filter lets exactly 0 to 3 pass |
| `Delivery.RelaySendable` | RF24EthernetTemplate/Drivers/RF24Network/RF24Network.cpp:222-230 | a relay's shifted level address passes the filter exactly at the levels 0 to 2, and is the next level's exactly at 1 and 2 |
| `Delivery.LevelHeard` | RF24EthernetTemplate/Drivers/RF24Network/RF24Network.cpp:670-675 | what is sent to one of these levels is heard on pipe 0 by exactly the nodes of that level |
| `NetworkDriver.ESBNetwork.Multicast` | RF24EthernetTemplate/Drivers/RF24Network/RF24Network.cpp:670-675 | sent, to the address of the level, exactly for the levels 0 to 3; a level over 4 means the own level of the node |
| `NetworkDriver.ESBNetwork.RelayMulticast` | RF24EthernetTemplate/Drivers/RF24Network/RF24Network.cpp:222-230 | what goes on the air is the frame to the shifted level address at the levels 0 to 2, nothing at 3 and 4 |
| `NetworkDriver.ESBNetwork.AnswerPoll` | RF24EthernetTemplate/Drivers/RF24Network/RF24Network.cpp:205-218 | a poll is answered directly, to its sender and in the name of this node, unless the node has no address or answers are turned off |
| `LeaseTable.GrantExact` | RF24EthernetTemplate/Drivers/RF24Mesh/RF24Mesh.cpp:550-593 | an address is granted exactly when some permitted slot is not held by another node, and it is the highest |
| `LeaseTable.SlotName` | RF24EthernetTemplate/Drivers/RF24Mesh/RF24Mesh.cpp:532-553 | a slot's address is the forwarder's name with the slot as one more digit |
| `LeaseTable.SlotBits` | RF24EthernetTemplate/Drivers/RF24Mesh/RF24Mesh.cpp:553-553 | the bit operations compute it |
| `LeaseTable.SetKeepsLeases` | RF24EthernetTemplate/Drivers/RF24Mesh/RF24Mesh.cpp:433-466 | recording an assignment keeps ids and live addresses distinct if and only if it names a node, and an address that is neither the default one nor held by another node |
| `LeaseTable.ReleaseKeepsLeases` | RF24EthernetTemplate/Drivers/RF24Mesh/RF24Mesh.cpp:90-97 | releasing keeps them distinct |
| `LeaseTable.LookupRoundTrip` | RF24EthernetTemplate/Drivers/RF24Mesh/RF24Mesh.cpp:173-240 | looking up a node's address, handed out as a signed 16-bit number, and then the node of that address leads back to the node |
| `LeaseTable.TableFits` | RF24EthernetTemplate/Drivers/RF24Mesh/RF24Mesh.cpp:433-466 | the table never exceeds 255 entries, its 8-bit counter |
| `LeaseTable.AnswerKeepsLeases` | RF24EthernetTemplate/Drivers/RF24Mesh/RF24Mesh.cpp:510-594 | answering a request keeps the table in order, and the answered node holds the address of the answer |
| `LeaseTable.AnswerKeepsOthers` | RF24EthernetTemplate/Drivers/RF24Mesh/RF24Mesh.cpp:433-466 | an answer leaves the entry of every other node alone, and without a grant the whole table |
| `LeaseTable.ReleaseTakesBack` | RF24EthernetTemplate/Drivers/RF24Mesh/RF24Mesh.cpp:90-97 | a release takes back the released address and no other |
| `LeaseTable.RunKeepsLeases` | RF24EthernetTemplate/Drivers/RF24Mesh/RF24Mesh.cpp:510-594 | every run of requests and releases keeps the table in order |
| `LeaseTable.LeasesSafe` | RF24EthernetTemplate/Drivers/RF24Mesh/RF24Mesh.cpp:510-594 | over every run: distinct non-zero ids, distinct live addresses, never 04444, at most 255 entries, and lookups that agree |
| `LeaseTable.LeaseLasts` | RF24EthernetTemplate/Drivers/RF24Mesh/RF24Mesh.cpp:510-594 | over every run the entry of a node says what its last answer said until it asks again or its address is released |
| `LeaseTable.LeasesDiffer` | RF24EthernetTemplate/Drivers/RF24Mesh/RF24Mesh.cpp:510-594 | so any two nodes that have been answered, have not asked again and were not released hold different addresses |
| `LeaseTable.GrantNamesChild` | RF24EthernetTemplate/Drivers/RF24Mesh/RF24Mesh.cpp:528-593 | a granted address has the forwarder as parent and the slot as pipe, and is a valid node address if and only if the forwarder has at most three digits |
| `LeaseTable.FourthLevelGrant` | RF24EthernetTemplate/Drivers/RF24Mesh/RF24Mesh.cpp:528-593 | every forwarder of four digits is granted an address on an empty table, and it is not a node name |
| `LeaseTable.FourthLevelNode` | RF24EthernetTemplate/Drivers/RF24Mesh/RF24Mesh.cpp:528-593 | there is such a forwarder |
| `Joining.ContactLevel` | RF24EthernetTemplate/Drivers/RF24Mesh/RF24Mesh.cpp:283-330 | whoever hears a poll is a node of the polled level, so of at most three digits |
| `Joining.RequestInName` | RF24EthernetTemplate/Drivers/RF24Network/RF24Network.cpp:183-188 | a contact passes a request on in its own name, so that the master sees the contact as its sender |
| `Joining.PolledGrant` | RF24EthernetTemplate/Drivers/RF24Mesh/RF24Mesh.cpp:283-366 | what is granted through such a contact is a node name |
| `Joining.PolledRunsSafe` | RF24EthernetTemplate/Drivers/RF24Mesh/RF24Mesh.cpp:283-366 | over every run in which all requests come from polling, every address in the table is a node name |
| `LeaseTable.GetLevel` | RF24EthernetTemplate/Drivers/RF24Mesh/RF24Mesh.cpp:245-253 | counts octal digits |
| `LeaseTable.Accepts` | RF24EthernetTemplate/Drivers/RF24Mesh/RF24Mesh.cpp:373-385 | the joining node accepts exactly the addresses below the node it asked through |
| `LeaseTable.GrantAccepted` | RF24EthernetTemplate/Drivers/RF24Mesh/RF24Mesh.cpp:373-385 | it accepts every address the master grants through that node |
| `LeaseTable.Master.GetAddress` | RF24EthernetTemplate/Drivers/RF24Mesh/RF24Mesh.cpp:173-206 | the search loop of the master, with its result cut to a signed 16-bit number |
| `LeaseTable.Master.GetNodeID` | RF24EthernetTemplate/Drivers/RF24Mesh/RF24Mesh.cpp:211-240 | the search loop of the master |
| `LeaseTable.Master.SetAddress` | RF24EthernetTemplate/Drivers/RF24Mesh/RF24Mesh.cpp:433-466 | updates or appends an entry, in an array that is reallocated in time; a 256th entry turns the 8-bit counter back to zero |
| `LeaseTable.Master.ReleaseAddress` | RF24EthernetTemplate/Drivers/RF24Mesh/RF24Mesh.cpp:90-97 | clears the address of the releasing node |
| `LeaseTable.Master.FindSlot` | RF24EthernetTemplate/Drivers/RF24Mesh/RF24Mesh.cpp:550-565 | the nested loops find the highest free slot |
| `LeaseTable.Master.DHCP` | RF24EthernetTemplate/Drivers/RF24Mesh/RF24Mesh.cpp:510-594 | a pending request of a non-zero id is answered and recorded, anything else changes nothing but the flag |
| `StreamSearch.BorderStep` | RF24EthernetTemplate/Drivers/Arduino/Stream.cpp:272-342 | a match grows by a byte exactly when the byte continues it |
| `StreamSearch.BorderOfBorder` | RF24EthernetTemplate/Drivers/Arduino/Stream.cpp:301-331 | shorter matches can be decided inside the target, without the bytes already read |
| `StreamSearch.MultiTarget.Advance` | RF24EthernetTemplate/Drivers/Arduino/Stream.cpp:286-334 | one byte: the target is found exactly when the input now ends with it, else the index is again the longest beginning of it the input ends with |
| `StreamSearch.Stream.FindMulti` | RF24EthernetTemplate/Drivers/Arduino/Stream.cpp:272-342 | stops at the earliest place where some target ends and returns the lowest such target, or -1 when none appears |
| `StreamSearch.OutcomeUnique` | RF24EthernetTemplate/Drivers/Arduino/Stream.cpp:272-342 | this fixes the place and the result |
| `StreamSearch.Stream.FindUntil` | RF24EthernetTemplate/Drivers/Arduino/Stream.cpp:121-130 | the target is found before the terminator |
| `StreamSearch.Stream.TimedRead` | RF24EthernetTemplate/Drivers/Arduino/Stream.cpp:32-43 | the next byte, or -1 at the end of what arrives |
| `Numerals.DigitsRoundTrip` | RF24EthernetTemplate/Drivers/Arduino/Print.cpp:349-369 | the digits determine the number |
| `Numerals.DigitsShape` | RF24EthernetTemplate/Drivers/Arduino/Print.cpp:349-369 | every digit is below the base and the highest is not zero |
| `Numerals.ChunkDigits` | RF24EthernetTemplate/Drivers/Arduino/Print.cpp:392-404 | one division splits off k digits |
| `Numerals.DigitCount` | RF24EthernetTemplate/Drivers/Arduino/Print.cpp:372-376 | a 64-bit number has at most 64 digits in any base |
| `Numerals.ChunkPower` | RF24EthernetTemplate/Drivers/Arduino/Print.cpp:384-392 | the chunk power is base^innerLoops and its computation never leaves 16 bits |
| `Numerals.PrintULLNumber` | RF24EthernetTemplate/Drivers/Arduino/Print.cpp:372-420 | the 16-bit chunk algorithm writes exactly the digits of the number, within its 64-byte buffer, and terminates |
| `Numerals.PrintPlain` | RF24EthernetTemplate/Drivers/Arduino/Print.cpp:306-326 | the plain loop writes the numeral from the end of its buffer to the front |
| `Numerals.NumeralReads` | RF24EthernetTemplate/Drivers/Arduino/Print.cpp:306-420 | in the bases 2 to 36 the printed text is a numeral of the number printed, read by the values of 0 to 9 and A to Z |
| `Numerals.NoBase` | RF24EthernetTemplate/Drivers/Arduino/Print.cpp:313-315 | the bases 0 and 1 mean ten |
| `Numerals.FastAgreesWithPlain` | RF24EthernetTemplate/Drivers/Arduino/Print.cpp:349-420 | the fast printer writes what the reference loop writes if and only if the number is not zero |
| `IntegerText.PrintLong` | RF24EthernetTemplate/Drivers/Arduino/Print.cpp:83-97 | signed in base 10, the bit pattern in other bases, of which the low byte counts, one raw byte in base 0 |
| `IntegerText.SignedReads` | RF24EthernetTemplate/Drivers/Arduino/Print.cpp:83-97 | in base 10 the text is a numeral of the magnitude, behind a minus sign if need be |
| `IntegerText.PeekNextDigit` | RF24EthernetTemplate/Drivers/Arduino/Stream.cpp:61-89 | skips what the lookahead mode allows and reports what stopped it |
| `IntegerText.ParseInt` | RF24EthernetTemplate/Drivers/Arduino/Stream.cpp:137-165 | reads one integer as the specification says |
| `IntegerText.FoldNumeral` | RF24EthernetTemplate/Drivers/Arduino/Stream.cpp:148-160 | the digits of a number fold back to it in 32-bit arithmetic |
| `IntegerText.ConsumeDigits` | RF24EthernetTemplate/Drivers/Arduino/Stream.cpp:148-160 | a run of digits and ignored characters is consumed to its end and no further, and only the digits count |
| `IntegerText.PrintParseRoundTrip` | RF24EthernetTemplate/Drivers/Arduino/Stream.cpp:137-165 | for every 32-bit n and every lookahead mode, reading the text printed for it behind a prefix the mode skips gives n and consumes exactly that text |
| `IntegerText.ParseScattered` | RF24EthernetTemplate/Drivers/Arduino/Stream.cpp:137-165 | the same with ignored characters strewn in among the digits |
| `IntegerText.NothingToParse` | RF24EthernetTemplate/Drivers/Arduino/Stream.cpp:61-89 | where no number follows what the mode skips the result is 0, and what stopped it is not consumed |
| `TextReplace.String.StrStr` | RF24EthernetTemplate/Drivers/Arduino/WString.cpp:771-777 | finds the first occurrence, reading no further than the terminator |
| `TextReplace.String.Replace` | RF24EthernetTemplate/Drivers/Arduino/WString.cpp:762-786 | for a replacement not longer than the pattern the buffer holds exactly the left-to-right non-overlapping substitution, with its length and terminator |
| `TextReplace.String.ReplaceShorter` | RF24EthernetTemplate/Drivers/Arduino/WString.cpp:775-786 | the write position never passes the read position, so unread text is intact |
| `TextReplace.ReplacedLength` | RF24EthernetTemplate/Drivers/Arduino/WString.cpp:784-784 | the length changes by the difference for every occurrence |
| `TextReplace.ReplacedBySame` | RF24EthernetTemplate/Drivers/Arduino/WString.cpp:770-774 | replacing text by itself changes nothing |
| `TextReplace.CopiedUpTo` | RF24EthernetTemplate/Drivers/Arduino/WString.cpp:777-780 | what stands before an occurrence is copied unchanged |
| `TextReplace.ReplacedIsJoined` | RF24EthernetTemplate/Drivers/Arduino/WString.cpp:770-786 | a text cut at the occurrences, each found after the one before it, becomes the same pieces joined by the replacement |
| `TextReplace.CutExists` | RF24EthernetTemplate/Drivers/Arduino/WString.cpp:770-786 | and every text can be cut so |
| `Dns.Client.BuildRequest` | RF24EthernetTemplate/Drivers/RF24Ethernet/Dns.cpp:168-245 | header, labels with their lengths, type and class, for every name |
| `Dns.RequestInFull` | RF24EthernetTemplate/Drivers/RF24Ethernet/Dns.cpp:168-245 | the 22 bytes of one request, in full |
| `Dns.LabelsOfJoined` | RF24EthernetTemplate/Drivers/RF24Ethernet/Dns.cpp:208-232 | cutting at the dots gives the labels back (section 4.1.2 of RFC 1035) |
| `Dns.RequestSkipped` | RF24EthernetTemplate/Drivers/RF24Ethernet/Dns.cpp:313-338 | the question a request holds is skipped exactly, for labels of up to 255 bytes |
| `Dns.NameAsked` | RF24EthernetTemplate/Drivers/RF24Ethernet/Dns.cpp:208-242 | a name of labels of 1 to 63 bytes goes out as these labels and its question is skipped exactly |
| `Dns.CompressionBits` | RF24EthernetTemplate/Drivers/RF24Ethernet/Dns.cpp:352-352 | the two high bits are clear exactly for lengths up to 63 (section 4.1.4 of RFC 1035) |
| `Dns.QuestionsSkipped` | RF24EthernetTemplate/Drivers/RF24Ethernet/Dns.cpp:313-338 | all uncompressed questions are skipped exactly |
| `Dns.RecordRead` | RF24EthernetTemplate/Drivers/RF24Ethernet/Dns.cpp:347-396 | name with or without pointer, type, class, length and data of a record are found where they are (section 4.1.3 of RFC 1035) |
| `Dns.AddressReturned` | RF24EthernetTemplate/Drivers/RF24Ethernet/Dns.cpp:247-421 | a well-formed reply yields the data of its first A/IN record when that is four bytes long, -9 when it is not, -10 when there is none |
| `Dns.HeaderDecides` | RF24EthernetTemplate/Drivers/RF24Ethernet/Dns.cpp:270-308 | which packets the header decides, and with which result, byte by byte and bit by bit |
| `Dns.Client.ReadAnswers` | RF24EthernetTemplate/Drivers/RF24Ethernet/Dns.cpp:345-420 | the loop over the answers ends on every packet; while the packet holds what is read, with the first A/IN record |
| `Dns.Client.ProcessResponse` | RF24EthernetTemplate/Drivers/RF24Ethernet/Dns.cpp:268-421 | header checks and both walks, for every packet: where the code comes to an end it does within a turn for every byte, and the result is exact on packets that hold what they announce |
| `Dns.Client.SkipQuestionName` | RF24EthernetTemplate/Drivers/RF24Ethernet/Dns.cpp:318-332 | the loop over the name of a question: exact, and within a turn for every byte, where the name ends inside the packet |
| `Dns.QuestionsTerminate` | RF24EthernetTemplate/Drivers/RF24Ethernet/Dns.cpp:313-338 | the loops over the questions end, whatever their variables hold at first, if and only if the packet holds the end of every name |
| `Dns.CutInsideName` | RF24EthernetTemplate/Drivers/RF24Ethernet/Dns.cpp:318-332 | once the packet has ended inside a name no number of turns ends the loops, whatever the variables hold |
| `Dns.Client.SkipAnswerName` | RF24EthernetTemplate/Drivers/RF24Ethernet/Dns.cpp:347-372 | the loop over the name of an answer ends on every packet |

## Left out

Contracts weaker than the code, and what the model abstracts:

- FrameQueue.Queue.EnqueuePlain: what is written behind the buffer when the guard is wrong is not modelled; the outcome is called Overrun.
- FrameQueue.Queue.Read: `memmove` also moves bytes behind the live ones; only the live bytes are modelled.
- FrameQueue.Queue.EnqueueAssembled: the external-data frames that are handed out without being queued are in Stm32Assembly.Receiver.EnqueueFragment.
- Stm32Assembly.Receiver.EnqueueFragment: an unfragmented external-data frame re-aims the message buffer (RF24Network.cpp:506); such frames are kept out of the runs.
- LinuxAssembly.DeliveredExactly: says that a message is delivered at least once; how often is in LinuxAssembly.FeedDelivers.
- LinuxAssembly.ReassemblySafe: assumes one message for each sender and message id; ids wrap around after 65535 messages.
- NetworkAck.AckSafety: covers payloads sent along the tree; messages have ids that never repeat, and frames are taken from the air in any order. Direct and multicast payloads are in PhysicalPipes and NetworkDriver.
- NetworkRuns.AckRoundTrip: one message alone in the network; arbitrary traffic is in NetworkRuns.EverythingArrives. Both are about channels without loss.
- WaitingSource.TrueMeansAccepted: in the model a node sends nothing of its own while a call waits; time limits may run out at any moment; sent directly, a frame is heard by any nodes of the relay's level.
- Delivery.LevelHeard: for the levels 0 to 3, those that are sent to.
- NodeRouting.Node.SetupAddress: for addresses of six digits, which the filter rejects, only the level is stated.
- PhysicalPipes.PipeAddress: names with digits up to 6 and at most four of them, which the translation table can spell.
- Radio.RF24.WriteFast: the chip's status is one bit, stuck or not, that changes as it likes; retries, payload sizes and the `ackPayloads` flush are not modelled.
- Radio.RF24.TxStandBy: the waiting loop and its timeout become an arbitrary outcome.
- NetworkDriver.ESBNetwork.Update: incoming frames, what `enqueue` makes of a frame and the speed of the clock are arbitrary; the wrap-around of `millis` after 2^32 milliseconds is not modelled.
- NetworkDriver.ESBNetwork.ProcessFrame: the size the radio reports for a frame decides only whether it is too short; the payload in the buffer is taken to be of that size.
- DriverProtocol.ProtocolAgrees: for a radio whose queue is not stuck; a stuck one is given nothing, which the log says too (`Delivery.Launch`).
- DriverProtocol.OneLevelDown: what a relaying master sends to its own address again is in Delivery.RelaySendable.
- NetworkDriver.ESBNetwork.WriteMessage: what comes of the payloads on the air is in Fragments; an `ok` from the fast path only says that the payload was queued.
- Fragments.SendFragments: the frames of one message are heard in the order they were sent, as when every node passes frames on in the order it reads them.
- Stm32Assembly.SentAndReassembled: with acknowledgements left over from earlier messages the first fragment may be missing; the slot then holds no message of the same id.
- LeaseTable.Master.SetAddress: only the default of searching by node id; the search by address, the table file and the callbacks are not modelled.
- LeaseTable.Master.DHCP: requests come from addresses of at most four digits, which the filter in `update` ensures; the answer's transmission is not modelled.
- LeaseTable.LookupRoundTrip: for addresses other than 0 and 65535, which the lookups use as special values, and 65534, which comes back as -2, not found.
- StreamSearch.Stream.FindMulti: the stream is the bytes that arrive before the timeout; `char` is unsigned, as on the target.
- IntegerText.ParseInt: `long` is 32 bits and wraps around, which C leaves undefined for the minimum; with that reading the round trip also holds for the minimum.
- IntegerText.ParseScattered: for an ignored character that is neither a digit nor a minus sign; so is IntegerText.PrintParseRoundTrip.
- TextReplace.String.Replace: only for replacements not longer than the pattern. The growing case (WString.cpp:788-807) scans text it has just written again. `memcpy` and `strcpy` to overlapping places are taken to copy forwards.
- Dns.Client.ProcessResponse: loops that may not end are cut off after a given number of turns; on a packet that is cut short in its answers the contract says only which codes are possible, because stale bytes are read. Waiting for the packet and checking its sender come before.
- Dns.Client.BuildRequest: the clock that gives the identifier is a parameter, and the buffer has room.
- Dns.AddressReturned: names in questions are not compressed; in a compressed one the code takes the pointer for a length.

Not modelled at all:

- Sockets, DTLS, the uIP stack, `RF24Client`, `RF24Udp`, `RF24Server`, `RF24Ethernet` and the gateway: their logic lies in libraries that are not part of this model.
- Hardware set-up, interrupts, SPI transfers, delays, sleep mode and the FreeRTOS configuration: no algorithm of their own.
- The rest of `RF24.cpp`, such as data rates, power levels, payload sizes and scanning: single register writes.
- The client side of the mesh, timeouts and retries of `requestAddress`: only which levels are polled, who answers, and the check of the offered address. Nodes that have moved to another multicast level by the setter `multicastLevel` are left out.
- `addressOfPipe`, the setter `multicastLevel`, `inet_aton`, `lastIndexOf`, `remove`, `trim`, `readBytes` and `find`: easier copies of what is here.
- Floating-point text: rounding is the point there.
