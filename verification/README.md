# Verified models of the P2P clouds node

The node moves data over a reliable datagram transport (KCP), keeps a tree of proof-of-work
blocks and follows the chain with the most work, proves transactions with Merkle trees, computes
targets with 256 bit limb arithmetic, runs tasks on a worker pool and converts text between UTF-8,
UTF-16 and UTF-32. This project models these six parts in Dafny and proves what they promise.

| files | part | main results |
|---|---|---|
| `KcpWire`, `Kcp`, `KcpReceiver`, `KcpSender`, `KcpMessages`, `KcpNetwork`, `KcpProgress`, `KcpFlush`, `KcpDelivery`, `KcpStall`, `KcpEndpoint` | `ikcp.c` | in every run of two endpoints over a network that loses, duplicates and reorders datagrams: in-order, exactly-once, byte-exact delivery; no segment is ever lost; from every reachable state, at any pace, one continuation delivers everything in both directions if and only if no message is too large for the peer's window and no direction is stuck on a window of 2^16 or more told as closed |
| `BlockTree`, `SkipSteps`, `ActiveChain`, `Candidates`, `Linking`, `ChainState`, `ChainGrowth`, `ChainRule`, `ChainRuns`, `ChainManager` | `chain.cpp`, `block_index.cpp` | the manager with its candidates, work list, batches and reorganisations does exactly what a simple chain rule says, for any sequence of arrivals with repetitions; reorganisation terminates at any depth; skip pointers agree with the parent walk, in at most e^2 rounds for heights of e bits |
| `MerkleTree`, `MerkleComputation` | `merkle.cpp` | the constant-space loop computes the naive tree's root, branches and mutation flag, and has a result exactly for up to 2^31 leaves |
| `Bits`, `Limbs`, `LimbDivision`, `Compact`, `Difficulty`, `Retargeting` | `arith_uint256.*`, `consensus.cpp` | limb operators are integer operators modulo 2^256, division is the floor quotient, the compact format rounds down to the greatest encodable number, retargeting is right exactly when the product does not wrap |
| `ThreadPool` | `threadpool.h` | every task in exactly one place, started in order; no lost wake-up, no deadlock; left alone a pool comes to rest, and at rest it has done every task once |
| `Utf8`, `Utf8Errors` | `utf8/core.h`, `utf8/checked.h` | validity is the grammar of section 4 of RFC 3629 less two noncharacters; unique decoding; round trips with UTF-16 and UTF-32; each exception told from the bytes where it is thrown |

How the parts are modelled:

- **Transport.** `Kcp` gives each operation as a function on a control block; the class
  `KcpEndpoint.Endpoint` has the source's fields and loops and is proved equal to these functions,
  step by step. Sequence numbers are 32 bit with wrap-around and are compared with the source's
  signed difference. A network state is two endpoints and the set of datagrams each ever put out;
  delivering any datagram of that set, any number of times, in any order or never, is a step. The
  congestion window, resend decisions, probe timers and clock values of a flush are arbitrary
  inputs, so the results hold for all of them.
- **Blocks.** A block index is named by its hash, and pointers between indexes become keys of a
  map; the fields set once (`Tree`) and those updated later (`Marks`) are two maps. The address
  comparison that ends the work comparator is the order of the names. The class
  `ChainManager.Manager` holds the source's containers and its methods are the source's loops. What
  it does to a block is specified by `ChainRule.Accept`, which has none of these containers. Of
  arriving blocks it is assumed (`ChainRule.Arrivals`) that a checked header has a target in range,
  that a body that passes has transactions, that a hash stands for one block, and that no block is
  the parent of the genesis block.
- **Hashes** are an abstract function of two arguments; where collision freedom matters it is a
  hypothesis (`Injective`). The 32 bit leaf counter of the Merkle loop wraps around as in the code.
- **Limbs** are arrays of 32 bit words of any width, updated in place.
- **Worker pool.** Each critical section under the mutex is one step of a state machine, and each
  notification, which comes after the unlock, is another.

Where the code does not do what is expected of it:

- Retargeting multiplies before it divides, in 256 bits. From the genesis target the product wraps
  for every timespan, so the first retarget is never right (`Difficulty.GenesisAlwaysWraps`); on
  schedule it makes the target more than forty times smaller (`Difficulty.GenesisOnSchedule`).
  `Difficulty.RetargetExact` states exactly when the result is right. For the same reason the cap at
  the limit never applies (`Difficulty.CapNeverApplies`).
- `acceptBlock` on a block that is already linked gives it a new sequence number. The chain and the
  work of the tip are not affected, and the candidate set holds only the tip then, so its order is
  not either. But the tip stops being the greatest linked block in the comparator's order exactly
  when the repeated block is the tip and another linked block has as much work
  (`ChainRule.AcceptBest`; `ChainRuns.RepeatLosesTie` is such a run; `ChainRuns.RunBestIff` gives the
  condition over whole runs), and a parent gets a later number than its child exactly when the
  repeated block has a linked child (`ChainRule.AcceptParentsFirst`; `ChainRuns.RepeatLosesOrder` is
  such a run).
- A block is linked exactly when it is accepted while its parent is linked (`ChainRuns.RunLinks`), which
  is when good arrivals of the blocks on its path occur in order (`ChainRuns.LinkedIffChained`). A
  block accepted before its parent has data is noted and stays unlinked when the parent is linked
  later, unless it arrives again (`ChainRuns.ChildLeftBehind` is such a run). It would wait in the
  unlinked map only if the parent's validity bits said "tree", and nothing sets these bits, so from
  an empty index the map stays empty and the work list links one block per call. The results on the
  work list with waiting blocks (`Linking`, `ChainGrowth`) concern states that `acceptBlock` alone
  never produces. "Linked" means a nonzero chain transaction count, as in the code.
- `ikcp_send` accepts a message of up to 255 pieces whatever the peer's window. One with more pieces
  than that window is never delivered and blocks everything after it (`KcpProgress.OversizeBlocks`;
  `KcpProgress.OversizeHappens` is such a run). A message whose pieces have arrived can be read if and
  only if it fits (`KcpProgress.ReadableIff`), and with windows the header can tell everything can still
  be delivered if and only if all messages fit (`KcpStall.DeliverableIff`, `KcpStall.BothDeliverableIff`).
- `ikcp_wndsize` accepts windows of 2^16 and more, but a header tells only the low 16 bits, so such a
  window may be told as closed although it is open. A direction is then stuck for good exactly when
  all numbered pieces have arrived, what is queued is no whole message and tells a closed window, no
  datagram ever put out told an open one, and the sender's window has no room (`KcpStall.Stuck`; the
  condition is exact by `KcpStall.DeliverableIff`; `KcpStall.StuckHappens` is such a run).
- `merkle.cpp` speaks of up to 2^32 leaves. From 2^31 + 1 on the counter, rounded up by the final
  sweep, wraps to zero, and the search for its next bit leaves the array
  (`MerkleComputation.Compute`, `MerkleComputation.RunsOff`, `MerkleComputation.WrapsToZero`).
- A retarget reads the block a cycle ago from the active chain, even for a block on another branch.
  That is an ancestor of the block exactly when its branch left the active chain at that height or
  above (`Retargeting.OwnCycle`; `Retargeting.ForeignCycle` is a tree where it did not).
- The walk of `getAncestor` is quadratic, not linear, in the number of bits of the height
  (`SkipSteps.StepsBound`, `SkipSteps.StepsSlow`).
- The codec refuses U+FFFE and U+FFFF, which RFC 3629 allows.

## Model

| member | source | states |
|---|---|---|
| `KcpNetwork.ReliableDelivery` | src/deps/kcp/ikcp.c:356-853 | in every run, in both directions, the messages read by non-peeking receives are a prefix of the messages the peer accepted for sending: byte-exact, in order, each once |
| `KcpNetwork.NoSegmentLost` | src/deps/kcp/ikcp.c:558-605 | in every reachable state each sequence number below `snd_nxt` is still in the send buffer or has been received by the peer |
| `KcpNetwork.QuietMeansArrived` | src/deps/kcp/ikcp.c:1260-1263 | at either endpoint, nothing waiting to be sent means every piece of every message has arrived at the peer, and unless the peer's queue is full, what it read plus its queue is the whole stream |
| `KcpNetwork.RunKeeps` | src/deps/kcp/ikcp.c:742-1083 | the two-endpoint invariant holds in every state of every run with fewer than 2^31 segments |
| `KcpNetwork.NextKeeps` | src/deps/kcp/ikcp.c:742-1083 | every step of either endpoint keeps the invariant |
| `KcpNetwork.RecvReturnsNext` | src/deps/kcp/ikcp.c:356-433 | a successful receive returns exactly the next message of the peer's stream |
| `KcpNetwork.DeliverKeeps` | src/deps/kcp/ikcp.c:742-882 | feeding in any datagram the peer ever put out, again or out of order, keeps the invariant on both sides |
| `KcpNetwork.FlushKeeps` | src/deps/kcp/ikcp.c:911-1089 | a flush with any window, resend choice and clock keeps the invariant of both sides |
| `KcpProgress.RoundTrip` | src/deps/kcp/ikcp.c:742-1089 | in every reachable state a due piece within the receiver's window is put on the wire by a flush, arrives with its datagram, and leaves the send buffer with the acknowledgement of the peer's flush, whatever the windows and clocks |
| `KcpProgress.ReachableConnected` | src/deps/kcp/ikcp.c:742-1089 | the states of all runs are among those of the round trip |
| `KcpProgress.NumberFillsWindow` | src/deps/kcp/ikcp.c:1000-1023 | a flush numbers exactly as many pieces as the window admits and the queue holds |
| `KcpProgress.FlushPuts` | src/deps/kcp/ikcp.c:936-1089 | every segment of a flush is found by parsing one of its datagrams |
| `KcpProgress.ProcessAllArrives` | src/deps/kcp/ikcp.c:811-829 | a data segment within the window, among any others of its datagram, is received and its acknowledgement owed |
| `KcpProgress.ProcessAllReleases` | src/deps/kcp/ikcp.c:785-810 | an acknowledgement, among any others of its datagram, takes its segment out of the send buffer |
| `KcpProgress.OversizeBlocks` | src/deps/kcp/ikcp.c:503-508 | in every run and either direction, a message with more pieces than the peer's window is never delivered, nor anything after it |
| `KcpProgress.OversizeHappens` | src/deps/kcp/ikcp.c:503-508 | such a message is accepted at once by a fresh endpoint |
| `KcpProgress.ReadableIff` | src/deps/kcp/ikcp.c:439-461 | a message whose pieces have all arrived can be read into a large enough buffer if and only if it has no more pieces than the window |
| `KcpStall.DeliverableIff` | src/deps/kcp/ikcp.c:356-1112 | from the state of any run and at any pace, some continuation ends with everything read and acknowledged if and only if no message accepted so far has more pieces than the peer's window and the direction is not stuck; with receive windows below 2^16, or at least 255 modulo 2^16, if and only if all messages fit |
| `KcpStall.DeliverableBackIff` | src/deps/kcp/ikcp.c:356-1112 | the same for the other direction |
| `KcpStall.BothDeliverableIff` | src/deps/kcp/ikcp.c:356-1112 | one continuation does so in both directions if and only if both conditions hold |
| `KcpStall.StaysStuck` | src/deps/kcp/ikcp.c:742-1023 | a stuck direction stays stuck over every continuation, whatever is sent, received, flushed and delivered again |
| `KcpStall.StuckHappens` | src/deps/kcp/ikcp.c:886-907 | an endpoint whose window is a multiple of 2^16 and that speaks first shuts its peer out |
| `KcpStall.OrdinaryNeverStalls` | src/deps/kcp/ikcp.c:886-907 | with a window below 2^16, or at least 255 modulo 2^16, no direction is ever stuck |
| `KcpStall.ReadUntilTold` | src/deps/kcp/ikcp.c:368-434 | unless what is queued is no whole message, reading brings the queue to where an open window is told |
| `KcpStall.Prime` | src/deps/kcp/ikcp.c:742-1023 | unless the direction is stalled, the receiver can be brought to tell an open window |
| `KcpDelivery.DeliverAll` | src/deps/kcp/ikcp.c:356-1112 | at any pace, reading, resending, probing and acknowledging in turn deliver everything that fits, once all pieces have arrived or an open window can be told |
| `KcpDelivery.OpenWindow` | src/deps/kcp/ikcp.c:948-992 | however the window stands, resending or probing and the reply, or a datagram delivered again, open it and leave nothing in flight |
| `KcpFlush.FlushTells` | src/deps/kcp/ikcp.c:923-946 | all segments of a flush carry the same acknowledgement, and the room left in the receive queue as their window |
| `KcpFlush.FlushExact` | src/deps/kcp/ikcp.c:911-1089 | all a flush puts out: one answer for each acknowledgement owed, with its number and time; a window question if and only if the peer's window is closed and a probe due, a window tell if and only if asked for; and, in order and each once, exactly the pieces newly numbered, those in flight never sent, and those chosen to be sent again |
| `KcpFlush.FlushCounts` | src/deps/kcp/ikcp.c:1031-1058 | the transmission count grows by one for exactly the pieces sent |
| `KcpFlush.FlushNumbers` | src/deps/kcp/ikcp.c:994-1023 | a flush numbers pieces up to the least of the send window, the peer's window, the congestion window unless there is none, and what there is to send |
| `KcpFlush.FirstFlush` | src/deps/kcp/ikcp.c:233-293 | a fresh endpoint sends at most 32 pieces before it hears of its peer |
| `KcpFlush.FreshIsSilent` | src/deps/kcp/ikcp.c:233-293 | a fresh endpoint puts out nothing, started or not |
| `KcpFlush.InputExact` | src/deps/kcp/ikcp.c:742-783 | input acts on exactly the segments encoded at the front of the bytes, and its code is the first defect behind them |
| `KcpFlush.OwedExactly` | src/deps/kcp/ikcp.c:811-829 | a data segment below the end of the window is owed one acknowledgement, whether new, repeated or old; nothing else is |
| `KcpFlush.TellsAfterRead` | src/deps/kcp/ikcp.c:424-430 | a read makes the next flush tell the window if and only if it succeeds and brings a full queue below the window |
| `KcpFlush.TellsAfterQuestion` | src/deps/kcp/ikcp.c:830-837 | so does a question for the window, and no other segment |
| `KcpProgress.FittingIsReadable` | src/deps/kcp/ikcp.c:439-461 | a message within the window is readable as soon as all its pieces have arrived |
| `KcpProgress.RunStaysWithin` | src/deps/kcp/ikcp.c:719-731 | the receive queue never outgrows the window |
| `KcpReceiver.MoveReadyKeeps` | src/deps/kcp/ikcp.c:719-731 | moving ready segments keeps the receive queue equal to the next part of the stream and loses nothing held |
| `KcpReceiver.FindSlotCorrect` | src/deps/kcp/ikcp.c:688-702 | the backward scan finds the place that keeps the buffer ordered, or the duplicate |
| `KcpReceiver.InsertKeeps` | src/deps/kcp/ikcp.c:704-717 | inserting keeps order and faithfulness and adds exactly that sequence number |
| `KcpReceiver.ParseDataKeeps` | src/deps/kcp/ikcp.c:676-736 | accepting a genuine data segment keeps the receiver invariant, and segments outside the window change nothing |
| `KcpReceiver.ProcessAsReceiver` | src/deps/kcp/ikcp.c:764-853 | any genuine segment keeps the receiver invariant, and all acks to be sent are for received segments |
| `KcpSender.DropBelowExact` | src/deps/kcp/ikcp.c:591-605 | a cumulative ack removes exactly the segments below it |
| `KcpSender.DropAckedExact` | src/deps/kcp/ikcp.c:569-589 | a selective ack removes exactly that segment |
| `KcpSender.ParseAckExact` | src/deps/kcp/ikcp.c:569-589 | an ack outside `snd_una`..`snd_nxt` is ignored, one inside removes exactly its segment |
| `KcpSender.ProcessAsSender` | src/deps/kcp/ikcp.c:764-853 | a segment removes from the send buffer only what it acknowledges |
| `KcpSender.NumberKeeps` | src/deps/kcp/ikcp.c:1000-1023 | numbering takes fragments off the queue in order and gives consecutive sequence numbers |
| `KcpSender.FlushAsSender` | src/deps/kcp/ikcp.c:911-1089 | a flush keeps the sender invariant and drops nothing |
| `KcpSender.FlushSegsGood` | src/deps/kcp/ikcp.c:936-1083 | every segment flushed is genuine: acks for received segments, data equal to the stream at its number |
| `KcpSender.FlushCarriesSegments` | src/deps/kcp/ikcp.c:936-1089 | the datagrams of a flush are non-empty, at most one mtu long, their concatenation is the segments in order, and parsing each recovers exactly its segments |
| `KcpWire.RoundTrip32` | src/deps/kcp/ikcp.c:93-120 | decoding at any offset undoes the 32 bit encoder |
| `KcpWire.RoundTrip16` | src/deps/kcp/ikcp.c:67-91 | decoding undoes the 16 bit encoder up to the low 16 bits |
| `KcpWire.HeaderRoundTrip` | src/deps/kcp/ikcp.c:886-897 | a decoded header has the fields of the encoded segment, the window cut to 16 bits |
| `KcpWire.WireLayout` | src/deps/kcp/ikcp.c:886-897 | the header byte by byte, low byte first, and the codes of the commands |
| `KcpWire.ParseEncodeAll` | src/deps/kcp/ikcp.c:754-853 | the parse loop recovers exactly the list of encoded segments and reports no error |
| `KcpWire.ParseExact` | src/deps/kcp/ikcp.c:754-783 | on any bytes, what is taken are exactly the encoded segments at the front, and the code is the first defect behind them: 0 for no whole header, -1 for another conversation, -2 for a length beyond the end, -3 for an unknown command |
| `KcpWire.PackCorrect` | src/deps/kcp/ikcp.c:936-992 | greedy packing yields non-empty datagrams within the mtu that carry exactly the segments, in order |
| `KcpWire.PackTight` | src/deps/kcp/ikcp.c:936-992 | no segment could have gone into the datagram before it |
| `Kcp.TimeDiffIsSigned32` | src/deps/kcp/ikcp.c:135-138 | the difference is the signed 32 bit reading of the wrapped subtraction |
| `Kcp.TimeDiffIsPlain` | src/deps/kcp/ikcp.c:135-138 | for numbers less than 2^31 apart it is plain subtraction |
| `KcpMessages.CutCorrect` | src/deps/kcp/ikcp.c:503-531 | fragmentation yields 1 to 255 pieces no longer than mss, numbered down to zero, whose bytes together are the message |
| `KcpMessages.CutFilled` | src/deps/kcp/ikcp.c:503-531 | as few pieces as possible: all but the last are full, and the last is empty only for an empty message |
| `KcpMessages.SendCodeIff` | src/deps/kcp/ikcp.c:503-508 | a message is accepted if and only if it has at most 255 times mss bytes, and else refused with -2 |
| `KcpMessages.RecvCodes` | src/deps/kcp/ikcp.c:356-433 | on any queue: -1 exactly when it is empty, -2 exactly when the message is incomplete, -3 exactly when it is longer than the buffer, and else the length of what is returned |
| `KcpMessages.PeekCodes` | src/deps/kcp/ikcp.c:439-461 | the size of the next message, or -1 exactly when there is none complete |
| `KcpMessages.ReadBack` | src/deps/kcp/ikcp.c:386-411 | a queue that starts with the pieces of a message gives that message and leaves the rest |
| `KcpMessages.PartialMessage` | src/deps/kcp/ikcp.c:439-461 | an incomplete message is never returned |
| `KcpMessages.QueueAtBoundary` | src/deps/kcp/ikcp.c:356-433 | a queue that starts at a message's first piece holds a proper part of that message or all of it first |
| `KcpEndpoint.Endpoint.constructor` | src/deps/kcp/ikcp.c:233-293 | a new endpoint is in the initial control-block state |
| `KcpEndpoint.Endpoint.Send` | src/deps/kcp/ikcp.c:467-535 | the queueing loop does what the send function does, with its error codes |
| `KcpEndpoint.Endpoint.PeekSize` | src/deps/kcp/ikcp.c:439-461 | the size of the next complete message, or -1 |
| `KcpEndpoint.Endpoint.Recv` | src/deps/kcp/ikcp.c:356-433 | merging, moving and window recovery do what the receive function does, with its error codes and data |
| `KcpEndpoint.Endpoint.ParseUna` | src/deps/kcp/ikcp.c:591-605 | the loop drops exactly what the cumulative ack covers |
| `KcpSender.ShrinkIsLeast` | src/deps/kcp/ikcp.c:558-567 | `snd_una` becomes the least number in flight, or `snd_nxt` when nothing is |
| `KcpEndpoint.Endpoint.ParseAck` | src/deps/kcp/ikcp.c:569-589 | the scan with its early exit removes exactly the acknowledged segment |
| `KcpEndpoint.Endpoint.ParseData` | src/deps/kcp/ikcp.c:676-736 | the backward scan, insertion and move do what the data function does |
| `KcpEndpoint.Endpoint.Process` | src/deps/kcp/ikcp.c:764-853 | one parsed segment changes the state as the segment function says |
| `KcpEndpoint.Endpoint.Input` | src/deps/kcp/ikcp.c:742-882 | the parse loop processes every segment before an error and returns the error's code |
| `KcpEndpoint.Endpoint.Flush` | src/deps/kcp/ikcp.c:911-1089 | acks, probes and data are packed into exactly the datagrams of the flush function, and the state changes as it says |
| `KcpSender.WaitSndCounts` | src/deps/kcp/ikcp.c:1260-1263 | the count is of pieces in flight or not yet numbered, and zero exactly when everything accepted was numbered and acknowledged |
| `BlockTree.GetAncestor` | src/libs/blockchain/block_index.cpp:40-77 | the walk over skip pointers returns what the plain parent walk returns for every height, null outside the range, and never follows a missing pointer |
| `BlockTree.SkipsKept` | src/libs/blockchain/block_index.cpp:79-85 | adding a block with its skip pointer built keeps every skip pointer at the right ancestor |
| `BlockTree.AddNode` | src/libs/blockchain/chain.cpp:315-343 | adding an index keeps the tree and its skip pointers, and the work is the parent's plus its own |
| `BlockTree.SkipHeight` | src/libs/blockchain/chain.h:19-33 | a skip goes strictly down |
| `SkipSteps.StepsBound` | src/libs/blockchain/block_index.cpp:40-77 | from a height of e bits to any lower one the walk takes at most e * e rounds |
| `SkipSteps.StepsSlow` | src/libs/blockchain/block_index.cpp:40-77 | from 2^e - 1 to height 2 it takes at least a quarter of that |
| `SkipSteps.SourceIsLawful` | src/libs/blockchain/chain.h:19-33 | even heights skip by clearing their lowest one, odd ones by clearing two of those before the last |
| `BlockTree.AncestorStable` | src/libs/blockchain/chain.cpp:315-343 | growing the tree changes no ancestor |
| `BlockTree.PathAt` | src/libs/blockchain/chain.cpp:37-53 | position h of a path is the ancestor at h, and what lies below is that ancestor's path |
| `ActiveChain.Chain.SetTip` | src/libs/blockchain/chain.cpp:37-53 | the chain becomes exactly the path to the new tip although the loop stops at the first block in place |
| `ActiveChain.FillIsPath` | src/libs/blockchain/chain.cpp:49-52 | filling downwards over any settled vector yields the path and leaves what is above |
| `ActiveChain.Chain.FindFork` | src/libs/blockchain/chain.cpp:19-35 | the walk that first skips to the chain's height finds the fork of the plain walk |
| `ActiveChain.ForkIsHighest` | src/libs/blockchain/chain.cpp:19-35 | the fork is shared, and every shared block is at or below it |
| `ActiveChain.ContainsIff` | src/libs/blockchain/chain.h:79-93 | the chain contains exactly the ancestors of its tip |
| `Candidates.Greatest` | src/libs/blockchain/chain.cpp:618-626 | the last element of the ordered candidate set is greater than all others |
| `Candidates.LessIsStrict` | src/libs/blockchain/block_index.h:61-85 | the work comparator is a strict total order |
| `Candidates.Prune` | src/libs/blockchain/chain.cpp:584-596 | erasing from the front leaves exactly the candidates not worse than the tip |
| `Candidates.UsableIff` | src/libs/blockchain/chain.cpp:630-660 | a candidate is usable exactly when the walk to the active chain meets no failed or data-less block |
| `Candidates.UsableExact` | src/libs/blockchain/chain.cpp:630-660 | a block is usable if and only if every block on its path above the fork has data and is neither failed nor below a failed one |
| `Candidates.CondemnCulls` | src/libs/blockchain/chain.cpp:640-657 | condemning removes only unusable candidates, marks only descendants of failed blocks, and re-queues only unusable children under their parents |
| `Candidates.CondemnExact` | src/libs/blockchain/chain.cpp:640-657 | exactly the blocks from the candidate down to the bad one leave the candidates, and if that failed exactly those above it are marked |
| `Candidates.CondemnRequeues` | src/libs/blockchain/chain.cpp:640-657 | if the bad block lacks data, exactly the blocks above it wait again, each with its parent; if it failed, none |
| `Candidates.CulledTwice` | src/libs/blockchain/chain.cpp:600-670 | any number of rounds still only removes unusable candidates |
| `Candidates.UsableKept` | src/libs/blockchain/chain.cpp:640-657 | marking changes the usability of no block |
| `ChainManager.Manager.FindMostWork` | src/libs/blockchain/chain.cpp:598-671 | terminates with the greatest usable candidate or null if none; nothing changes when the greatest candidate is usable |
| `ChainManager.Manager.TryGreatest` | src/libs/blockchain/chain.cpp:613-668 | one round returns a usable greatest candidate or removes an unusable one |
| `ChainManager.Manager.CondemnChain` | src/libs/blockchain/chain.cpp:646-657 | the removal loop does what the condemning function says |
| `ChainManager.Manager.DisconnectTo` | src/libs/blockchain/chain.cpp:679-684 | disconnecting ends exactly at the fork |
| `ChainManager.Manager.CollectBatch` | src/libs/blockchain/chain.cpp:693-708 | the batch is the path below the target height down to the last connected height, highest first |
| `ChainManager.Manager.ConnectBatch` | src/libs/blockchain/chain.cpp:711-729 | connecting highest first stops as soon as the tip is better than before, keeps the target a candidate, and prunes only worse blocks |
| `ChainManager.Manager.ActivateBestChainStep` | src/libs/blockchain/chain.cpp:673-732 | the step ends on the target's path, and strictly higher in work if it began on it |
| `ChainManager.Manager.SwitchTo` | src/libs/blockchain/chain.cpp:741-763 | repeating search and step terminates at the target for any depth of reorganisation |
| `ChainManager.Manager.ActivateBestChain` | src/libs/blockchain/chain.cpp:734-769 | the chain becomes exactly the path to the greatest usable candidate; without one it stays |
| `Linking.LinkAllGrows` | src/libs/blockchain/chain.cpp:541-572 | the work list links exactly the blocks reachable through the unlinked map, keeps transaction sums, and gives distinct sequence numbers with parents first |
| `Linking.LinkAllOffers` | src/libs/blockchain/chain.cpp:555-558 | a newly linked block becomes a candidate exactly when it is not worse than the tip |
| `Linking.LinkOneKeeps` | src/libs/blockchain/chain.cpp:547-571 | every round keeps the work-list invariant |
| `ChainState.ChainTxsIsSum` | src/libs/blockchain/chain.cpp:552 | the count of a linked block is the sum of transactions along its path |
| `ChainState.UsableIsAllOk` | src/libs/blockchain/chain.cpp:628-631 | looking only down to a sound active chain is enough |
| `ChainState.BestOfLinked` | src/libs/blockchain/chain.cpp:555-558 | after linking, the greatest candidate is the greatest of all linked blocks |
| `ChainState.TipNeedsMoreWork` | src/libs/blockchain/block_index.h:61-85 | the tip changes only for strictly more work |
| `ChainGrowth.LinkAllSound` | src/libs/blockchain/chain.cpp:541-572 | also with blocks waiting, the work list keeps every invariant of the manager except the best tip |
| `ChainGrowth.AddedKeeps` | src/libs/blockchain/chain.cpp:315-343 | also with blocks waiting, adding an index keeps the whole invariant |
| `ChainGrowth.StoreSettles` | src/libs/blockchain/chain.cpp:299-310 | also with blocks waiting, receiving an unlinked block and moving to the greatest candidate restores the whole invariant, keeps linked blocks as they are and never makes the tip worse |
| `ChainGrowth.ReceivedWaitsIff` | src/libs/blockchain/chain.cpp:575-581 | a received block without a linked parent waits if and only if its parent is in the tree by its status and not failed |
| `ChainManager.Manager.LinkFrom` | src/libs/blockchain/chain.cpp:541-572 | the work-list loop does what the linking function says |
| `ChainManager.Manager.ReceiveBlock` | src/libs/blockchain/chain.cpp:533-582 | a block with a linked parent is linked with all that waited for it; another waits only if its parent's bits say so |
| `ChainManager.Manager.AddToBlockIndex` | src/libs/blockchain/chain.cpp:315-343 | the index grows by one block with its skip pointer, its height, and its parent's work plus its own |
| `ChainManager.Manager.Store` | src/libs/blockchain/chain.cpp:299-310 | receiving and activating amount to: link the block if its parent is linked, and make it the tip if it has more work |
| `ChainManager.Manager.AcceptBlock` | src/libs/blockchain/chain.cpp:244-313 | for every block, new, known or already linked, the manager does what the chain rule says: success exactly when all checks pass, linked exactly when the parent is, and the chain exactly the path to a tip of most work |
| `ChainManager.Manager.AcceptAll` | src/libs/blockchain/chain.cpp:244-313 | any sequence of arrivals, in any order and with repetitions, leads where the chain rule leads, with nothing left waiting |
| `ChainManager.QuietReceive` | src/libs/blockchain/chain.cpp:533-582 | with nothing waiting and no validity bits set, receiving links at most that block and leaves nothing waiting |
| `ChainManager.StoredCandidates` | src/libs/blockchain/chain.cpp:555-558 | the greatest candidate after receiving is the tip the chain rule demands |
| `ChainRule.AcceptSteady` | src/libs/blockchain/chain.cpp:244-313 | every arrival keeps the tip a linked block of most work, transaction counts right and sequence numbers distinct |
| `ChainRule.AcceptLinks` | src/libs/blockchain/chain.cpp:541-579 | exactly the accepted block gets linked, exactly when its parent is linked, and what is linked stays linked |
| `ChainRule.AcceptClimbs` | src/libs/blockchain/chain.cpp:734-769 | the tip stays or moves to the arriving block for strictly more work |
| `ChainRule.AcceptBest` | src/libs/blockchain/block_index.h:61-85 | the tip stays the greatest linked block in the comparator's order if and only if the arrival is not the tip again while another linked block has as much work |
| `ChainRule.AcceptParentsFirst` | src/libs/blockchain/chain.cpp:553 | parents keep earlier numbers than children if and only if the arrival has no linked child |
| `ChainRule.AcceptOthers` | src/libs/blockchain/chain.cpp:533-582 | an arrival changes no other block |
| `ChainRuns.TipNeverLoses` | src/libs/blockchain/chain.cpp:734-769 | over any part of any run the tip loses no work and has strictly more if it moved |
| `ChainRuns.RunBestIff` | src/libs/blockchain/block_index.h:61-85 | over any run the tip is the greatest linked block if and only if no other linked block of as much work was last linked before the tip was |
| `ChainRuns.NumbersFollowArrivals` | src/libs/blockchain/chain.cpp:553 | sequence numbers are in the order of the last linking arrivals |
| `ChainRuns.RunBest` | src/libs/blockchain/chain.cpp:244-313 | in a run that never repeats a tied tip, the tip is the greatest linked block: most work, then earliest number |
| `ChainRuns.RunLinks` | src/libs/blockchain/chain.cpp:541-579 | a block is linked after a run if and only if it was accepted at a moment when its parent was linked |
| `ChainRuns.LinkedIffChained` | src/libs/blockchain/chain.cpp:541-579 | a block is linked if and only if passing arrivals of the blocks on its path, genesis first, occur in that order in the run |
| `ChainRuns.RepeatLosesOrder` | src/libs/blockchain/chain.cpp:553 | genesis, a child, a grandchild and the child again: the child has a later number than its own child |
| `ChainRuns.RepeatLosesTie` | src/libs/blockchain/chain.cpp:553 | genesis, two children of equal work and the first again: the tip is no longer the greatest linked block |
| `ChainRuns.ChildLeftBehind` | src/libs/blockchain/chain.cpp:573-579 | genesis, a parent with a bad body, its child, the parent's good body: the accepted child stays unlinked although all its ancestors are linked |
| `MerkleComputation.ComputeMerkleRoot` | src/libs/blockchain/merkle.cpp:150-154 | the root of the naive tree that doubles odd ends, and the flag exactly when two adjacent aligned complete subtrees are equal; a result exactly for up to 2^31 leaves |
| `MerkleComputation.ComputeMerkleBranch` | src/libs/blockchain/merkle.cpp:156-160 | the branch of the naive tree; folding the leaf along it gives the root |
| `MerkleComputation.ComputeMerkleRootFromBranch` | src/libs/blockchain/merkle.cpp:191-203 | the loop is the fold of the branch |
| `MerkleComputation.Compute` | src/libs/blockchain/merkle.cpp:47-148 | root, flag and branch together, in constant space; a result if and only if there are at most 2^31 leaves, the counter wrapping to zero otherwise |
| `MerkleComputation.AddLeafCorrect` | src/libs/blockchain/merkle.cpp:66-96 | adding a leaf keeps the binary counter of complete subtree hashes, the flag and the branch so far |
| `MerkleComputation.SweepRoot` | src/libs/blockchain/merkle.cpp:97-144 | the final sweep yields the root of the naive tree |
| `MerkleComputation.SweepBranch` | src/libs/blockchain/merkle.cpp:107-143 | the final sweep completes the branch |
| `MerkleComputation.RunsOff` | src/libs/blockchain/merkle.cpp:108-144 | beyond 2^31 leaves the sweep finds no power of two before it leaves the slots |
| `MerkleComputation.WrapsToZero` | src/libs/blockchain/merkle.cpp:120-125 | a sweep addition that overflows 32 bits leaves zero, which has no bit to find |
| `MerkleComputation.SeenTwinIsMutated` | src/libs/blockchain/merkle.cpp:38-43 | what the loop saw is exactly a pair of equal adjacent aligned complete subtrees |
| `MerkleTree.BranchProvesLeaf` | src/libs/blockchain/merkle.cpp:191-203 | folding any leaf along its branch gives the root |
| `MerkleTree.SmallRoots` | src/libs/blockchain/merkle.cpp:10-36 | the roots of trees of one to five leaves, written out |
| `MerkleTree.LevelIsComplete` | src/libs/blockchain/merkle.cpp:57-61 | a node over a full block of leaves is the hash of that complete subtree |
| `MerkleTree.SameRootSameLeaves` | src/libs/blockchain/merkle.cpp:38-43 | without collisions, unmutated leaf lists of equal tree height with the same root are equal |
| `MerkleTree.DoubledEnd` | src/libs/blockchain/merkle.cpp:10-44 | repeating a last complete subtree without a neighbour keeps the root (the known flaw of such trees) and is always flagged |
| `MerkleTree.IncompleteTwin` | src/libs/blockchain/merkle.cpp:38-43 | without collisions, a doubled end inside a longer list shows up as a mutation |
| `Limbs.CompareTo` | src/libs/common/arith_uint256.cpp:111-121 | the sign of the difference of the represented numbers |
| `Limbs.AddAssign` | src/libs/common/arith_uint256.h:145-155 | the sum modulo 2^(32 n) |
| `Limbs.Not` | src/libs/common/arith_uint256.h:79-85 | 2^(32 n) - 1 minus the number |
| `Limbs.Increment` | src/libs/common/arith_uint256.h:183-190 | the successor modulo 2^(32 n) |
| `Limbs.Negate` | src/libs/common/arith_uint256.h:87-94 | the two's complement |
| `Limbs.SubAssign` | src/libs/common/arith_uint256.h:157-161 | the difference, wrapping below zero |
| `Limbs.MulAssign` | src/libs/common/arith_uint256.cpp:57-67 | the product with a 32 bit number modulo 2^(32 n), the 64 bit intermediate never overflowing |
| `Limbs.BitCount` | src/libs/common/arith_uint256.cpp:173-186 | the number of significant bits |
| `Limbs.ShiftLeft` | src/libs/common/arith_uint256.cpp:23-38 | the product with a power of two modulo 2^(32 n), for every shift |
| `LimbDivision.ShiftRight` | src/libs/common/arith_uint256.cpp:40-55 | the floor quotient by a power of two, for every shift |
| `LimbDivision.DivAssign` | src/libs/common/arith_uint256.cpp:85-109 | the floor quotient for every nonzero divisor; zero and failure otherwise |
| `LimbDivision.DivideLoop` | src/libs/common/arith_uint256.cpp:99-106 | shift-subtract keeps dividend = quotient * divisor + rest down to the last bit |
| `LimbDivision.SetBit` | src/libs/common/arith_uint256.cpp:102 | setting a quotient bit adds that power of two |
| `Compact.SetCompact` | src/libs/common/arith_uint256.cpp:206-226 | the limbs hold the decoded number, with both flags |
| `Compact.NegativeIff` | src/libs/common/arith_uint256.cpp:206-226 | a compact is flagged negative if and only if its signed mantissa times 256^(size - 3), rounded towards zero, is below zero; what is stored is the magnitude |
| `Compact.EncodeNegative` | src/libs/common/arith_uint256.cpp:228-252 | encoding a positive number with the sign gives a negative compact of the same rounded magnitude |
| `Compact.GetCompact` | src/libs/common/arith_uint256.cpp:228-249 | the encoding of the held number; the source's two assertions hold |
| `Compact.OverflowExact` | src/libs/common/arith_uint256.cpp:221-224 | overflow is flagged exactly when mantissa * 256^(size-3) reaches 2^256; otherwise nothing is cut off |
| `Compact.EncodeFits` | src/libs/common/arith_uint256.cpp:228-249 | what is encoded is never negative and never overflowing, and decodes to at most the original |
| `Compact.RoundedIsGreatest` | src/libs/common/arith_uint256.cpp:206-249 | no compact stands for a number between the decoded encoding and the original |
| `Compact.RoundedMonotone` | src/libs/common/arith_uint256.cpp:206-249 | decoding after encoding is monotone |
| `Compact.EncodeStable` | src/libs/common/arith_uint256.cpp:206-249 | encoding again gives the same bits |
| `Compact.DecodeThenEncode` | src/libs/common/arith_uint256.cpp:206-249 | a normalised compact survives decoding and encoding |
| `Difficulty.ChainWork` | src/libs/blockchain/chain.cpp:134-151 | floor(2^256 / (target + 1)) on limbs, zero for an unusable target, and no division by zero |
| `Difficulty.TargetNotFull` | src/libs/blockchain/chain.cpp:146-150 | no compact stands for 2^256 - 1, so target + 1 does not wrap |
| `Difficulty.WorkPositive` | src/libs/blockchain/chain.cpp:134-151 | a usable target stands for some work |
| `Difficulty.WorkExact` | src/libs/blockchain/chain.cpp:134-151 | the work is the greatest number whose product with the target plus one is within 2^256 |
| `Difficulty.WorkAntitone` | src/libs/blockchain/chain.cpp:134-151 | a harder target stands for no less work |
| `Difficulty.ValidProofOfWork` | src/libs/blockchain/consensus.cpp:232-253 | true exactly when the target is in range and the hash not above it |
| `Difficulty.InRangeIff` | src/libs/blockchain/consensus.cpp:237-246 | the range check passes if and only if the bits read as a number from 1 to the limit |
| `Difficulty.UsableIff` | src/libs/blockchain/chain.cpp:134-151 | bits have work if and only if they read as a positive number of 256 bits |
| `Difficulty.SignedNotInRange` | src/libs/blockchain/consensus.cpp:237-246 | no bits with the sign set pass the range check or have work |
| `Difficulty.NextBitsScale` | src/libs/blockchain/consensus.cpp:281-311 | the next bits stand for the last block's target scaled by the time since the first block, if the product does not wrap |
| `Difficulty.GenesisNegated` | src/libs/blockchain/consensus.cpp:237-246 | the genesis bits with the sign set are refused and have no work |
| `Difficulty.CalculateNextWorkTarget` | src/libs/blockchain/consensus.cpp:281-305 | the limb computation emits the bits of the clamped, scaled and capped target |
| `Difficulty.Timespan` | src/libs/blockchain/consensus.cpp:287-293 | the time passed, within a quarter and four times the cycle; time running backwards counts as the longest |
| `Difficulty.TimespanWraps` | src/libs/blockchain/consensus.cpp:287-293 | a difference below zero wraps around before it is clamped |
| `Difficulty.RetargetExact` | src/libs/blockchain/consensus.cpp:295-304 | the emitted bits decode to the compact floor of min(limit, old * timespan / cycle) if and only if old * timespan < 2^256 |
| `Difficulty.RetargetAtMostFourfold` | src/libs/blockchain/consensus.cpp:289-304 | the new target is at most four times the old one, wrapped or not |
| `Difficulty.RetargetBounds` | src/libs/blockchain/consensus.cpp:289-304 | without a wrap, from old targets of four on, the emitted bits pass the range check |
| `Difficulty.RetargetInRange` | src/libs/blockchain/consensus.cpp:232-245 | the emitted bits pass the range check if and only if the wrapped product reaches the cycle |
| `Difficulty.CapNeverApplies` | src/libs/blockchain/consensus.cpp:301-302 | the cap at the limit is never reached |
| `Difficulty.GenesisBits` | src/libs/blockchain/consensus.cpp:74 | the genesis bits are 0x1f00ffff, stand for exactly the initial target and pass the range check |
| `Difficulty.GenesisAlwaysWraps` | src/libs/blockchain/consensus.cpp:74 | from the genesis bits no timespan gives the intended target |
| `Difficulty.GenesisOnSchedule` | src/libs/blockchain/consensus.cpp:15-18 | on schedule the genesis target becomes more than forty times smaller |
| `Difficulty.GetBlock` | src/libs/blockchain/chain.cpp:78-97 | the block `offset` blocks down from height `start`, that one included, zero meaning the tip; null if there is none |
| `Difficulty.GetNextWorkTarget` | src/libs/blockchain/consensus.cpp:270-279 | the bits stay within a cycle; after it they are retargeted over the time since the active block at height last - cycle + 1 |
| `Retargeting.NextWorkTarget` | src/libs/blockchain/consensus.cpp:270-283 | the same over the active chain itself, which has one block per height |
| `Retargeting.PathIsOnePerHeight` | src/libs/blockchain/chain.cpp:36-53 | a path holds exactly one block per height |
| `Retargeting.OwnCycle` | src/libs/blockchain/consensus.cpp:283 | the active block at a height is the block's own ancestor if and only if the block left the active chain at that height or above |
| `Retargeting.ForeignCycle` | src/libs/blockchain/consensus.cpp:283 | on a branch from genesis the first retarget starts from a block that is not an ancestor |
| `ThreadPool.EveryRun` | src/libs/common/threadpool.h:88-156 | in every interleaving each task is in exactly one of queued, running, done; never queued tasks with all asleep and no notification due; all done once all workers left |
| `ThreadPool.PlacesKept` | src/libs/common/threadpool.h:88-143 | no step loses or duplicates a task |
| `ThreadPool.FifoKept` | src/libs/common/threadpool.h:102-110 | the queue always holds the latest tasks in the order they came |
| `ThreadPool.EnqueueExact` | src/libs/common/threadpool.h:116-143 | enqueueing is always possible; it appends one task, or is refused once stopped |
| `ThreadPool.OneNotificationEach` | src/libs/common/threadpool.h:116-143 | in every run each enqueued task has one notification, made or still to come |
| `ThreadPool.StartsInOrder` | src/libs/common/threadpool.h:102-110 | in every run tasks are started in the order they were enqueued |
| `ThreadPool.AttendedKept` | src/libs/common/threadpool.h:99-143 | no step loses a wake-up, lets a worker leave while tasks remain, or lets one sleep through the shutdown |
| `ThreadPool.NeverStuck` | src/libs/common/threadpool.h:99-156 | while tasks are queued or the shutdown is incomplete some step of the pool is possible |
| `ThreadPool.ShutdownEnds` | src/libs/common/threadpool.h:147-156 | after the stop no run is longer than what remains to be done |
| `ThreadPool.StoppedIsDone` | src/libs/common/threadpool.h:88-156 | after any run, a stopped pool with no step of its own left has no worker, no queued task, and every enqueued task done exactly once |
| `ThreadPool.ReachesEnd` | src/libs/common/threadpool.h:147-156 | from every stopped state that end is reached within what remains |
| `ThreadPool.CatchesUp` | src/libs/common/threadpool.h:88-143 | from every state, stopped or not, steps of the pool's own lead to an empty queue with every enqueued task done exactly once |
| `ThreadPool.LeftAloneRests` | src/libs/common/threadpool.h:88-143 | a running pool left alone comes to rest: no run of its own steps is longer than what is pending |
| `ThreadPool.RestIsDone` | src/libs/common/threadpool.h:88-143 | at rest, stopped or not, nothing is queued and every enqueued task was done exactly once |
| `Utf8.GrammarAgrees` | src/deps/utf8cpp/utf8/core.h:92-325 | one step accepts exactly the characters of the RFC 3629 grammar except two noncharacters, with the same length |
| `Utf8.EncodeValid` | src/deps/utf8cpp/utf8/checked.h:106-129 | what is appended is read back, whatever follows |
| `Utf8.ValidIsEncode` | src/deps/utf8cpp/utf8/core.h:258-306 | what is accepted is what would be appended for the code point returned |
| `Utf8.FindInvalid` | src/deps/utf8cpp/utf8/core.h:319-329 | the loop stops where the reference stops |
| `Utf8.StopsAtFirstInvalid` | src/deps/utf8cpp/utf8/core.h:319-329 | what lies before the stop decodes and what lies there does not |
| `Utf8.ValidIff` | src/deps/utf8cpp/utf8/core.h:319-329 | a string is valid if and only if it is a concatenation of appended code points |
| `Utf8.DecodeOfEncode` | src/deps/utf8cpp/utf8/checked.h:239-256 | decoding undoes encoding, so the decomposition is unique |
| `Utf8.EncodeOfDecode` | src/deps/utf8cpp/utf8/checked.h:239-256 | encoding undoes decoding |
| `Utf8.Utf8To32` | src/deps/utf8cpp/utf8/checked.h:249-256 | the code points of the string, or the first exception |
| `Utf8Errors.DecodeThrows` | src/deps/utf8cpp/utf8/checked.h:131-156 | an exception exactly when the scan stops early: not enough room if and only if the string ends within a character there, invalid code point if and only if a complete sequence stands for a surrogate, U+FFFE, U+FFFF or a number above 0x10ffff, and else invalid UTF-8 |
| `Utf8Errors.To16Throws` | src/deps/utf8cpp/utf8/checked.h:223-237 | the same for the conversion to UTF-16 |
| `Utf8Errors.EncodeThrows` | src/deps/utf8cpp/utf8/checked.h:106-129 | an invalid code point exception if and only if some number is no accepted code point |
| `Utf8Errors.To8Throws` | src/deps/utf8cpp/utf8/checked.h:196-220 | invalid UTF-16 exactly at a surrogate without its partner, invalid code point exactly at a noncharacter |
| `Utf8.Utf32To8` | src/deps/utf8cpp/utf8/checked.h:239-246 | the encoded bytes, or the first exception |
| `Utf8.Utf8To16` | src/deps/utf8cpp/utf8/checked.h:223-237 | the code units, or the first exception |
| `Utf8.Utf16To8` | src/deps/utf8cpp/utf8/checked.h:196-220 | the bytes, or the first exception of reading or appending |
| `Utf8.JoinedIsPair` | src/deps/utf8cpp/utf8/checked.h:205-206 | the wrapped surrogate arithmetic is the pair's code point |
| `Utf8.ThroughUtf16` | src/deps/utf8cpp/utf8/checked.h:196-237 | every valid byte string survives the way through UTF-16 |
| `Utf8.ThroughUtf8` | src/deps/utf8cpp/utf8/checked.h:196-237 | every accepted unit string survives the way through UTF-8 |

## Left out

- KcpEndpoint.Endpoint.Send: stream mode and the error return for a negative length are not modelled,
  because messages are byte strings here.
- KcpEndpoint.Endpoint.Input: fast-ack counters, round-trip times and congestion window growth are not
  part of the state, because the results hold for every resend choice and window.
- KcpEndpoint.Endpoint.Flush: resend timers, the congestion window and the clock are parameters of a
  flush, because the results hold for all of them.
- Block indexes as heap objects: pointers are keys of maps, so aliasing and deletion of an index
  (the error path of `acceptBlock` after a failed activation, which cannot be reached) are not
  captured.
- KcpEndpoint.Endpoint.Process: round-trip time updates are not part of the state, because the results
  hold for every resend choice.
- KcpStall.DeliverableIff: for a receive window of 2^16 or more there must be room below 2^31 for one
  more segment of the receiver, because it may have to send an empty message to tell its window. The
  congestion window of each endpoint is any one of at least one, or none, throughout the continuation.
- 32 bit wrap-around of sequence IDs and transaction counts and 256 bit wrap-around of summed chain
  work: natural numbers are used.
- `checkAllBlockIndexs` after activation: its passes are assertions on the index with no effect.
- Block and header validation (Merkle root of a block, size limits, time rules): its outcome is
  part of an arriving block.
- `connectTip` and `disconnectTip` failing: they always succeed in the source.
- KCP stream mode, runtime changes of mtu and windows, and sequence numbers beyond 2^31 segments:
  the configuration is fixed and the number of segments bounded.
- KCP round-trip estimation, congestion window growth, fast-resend counters and timers: replaced
  by arbitrary choices; that the timers ever make a lost piece due again is not part of the model.
- KCP allocation, logging, the linked-list macros: queues are sequences.
- `operator*=` with a second limb array, `--`, the bitwise operators, hex and floating-point
  conversions of `arith_uint256`: easy or not used by the results above.
- SHA-256 and the concrete hash input of the Merkle tree: an abstract combiner.
- Exceptions thrown by tasks and the futures of the thread pool: tasks only start and finish.
- UTF-8 `prior`, `previous`, `replace_invalid`, byte-order marks and the unchecked variants.
- Networking, storage, mining, the mempool, Kademlia and the command line.
