# Verified models of a user-space Net/3 stack

The repository ports the 4.4BSD network stack to user space. This project models the algorithms in it that are hardest to get
right and proves what they are for. `dafny verify dfyconfig.toml` checks everything.

Each part consists of functions that say what should happen, lemmas about them, and, where the C code changes things step by
step, classes, arrays and loops that are proved to do just that.

- **Routing table** (`Radix*.dfy`). Nodes live in a memory of addressed cells with parent, child and mask-list links; a tree value
  says what that memory stands for. Insertion, deletion, mask promotion, lifting and demotion work on the cells. Longest-prefix
  lookup agrees with a scan of the whole table after any run of additions and deletions, and none of the three diagnostic
  messages of deletion can appear.
- **TCP/IP header compression** (`Vj*.dfy`; sections 3.2.2 to 3.2.4 and 4 of RFC 1144). Headers are kept octet for octet, the
  sixteen transmit states in a linked ring. Sender and receiver stay in step over whole runs; exactly which packets are restored
  is stated per packet.
- **Serial line** (`Clist.dfy`, `Slip*.dfy`; the PROTOCOL section of RFC 1055). Compression, framing, the blocked character queue,
  partial writes, deframing, resynchronisation and decompression are put together end to end.
- **64-bit arithmetic** (`Quad*.dfy`). Multiprecision division in base 2^16 and multiplication with explicit carries, with the
  machine's 32-bit wrap-around written out.
- **Socket buffers** (`Mbufs.dfy`, `SockBuf.dfy`, `SockReceive.dfy`) and **buffer chains** (`MbufChains.dfy`). Records of typed,
  possibly empty buffers refine a queue of marked octet strings; receiving agrees with peeking.
- **Listen queue** (`ListenQueue.dfy`). Two lists threaded through socket structures in memory.
- **Packet filter** (`BpfFilter.dfy`, `BpfMeaning.dfy`, `BpfBuffer.dfy`). The program check against the machine that runs the
  programs, what programs mean for packets, and the three-slot capture buffers down to the octets of the record headers.
- **Timers** (`Callout.dfy`) and **routing messages** (`RouteMessages.dfy`).

`Prelude.dfy` and `Bytes.dfy` hold shared vocabulary. Sizes are those of the 32-bit configuration in the repository's headers: an
mbuf of 128 octets, 108 of them for data or 100 with a packet header, clusters of 2048, a receive limit of 1916 octets on the
serial line (without a packet filter tap).

## Main results

- `RadixRouting.Serve`: longest-prefix lookup after any run of additions and deletions.
- `RadixRouting.RadixHead.Match`, `AddRoute` and `Delete`: the same one call at a time, with links, shape and mask lists kept.
- `VjProtocol.RunDelivers`: whole runs of header compression; `VjProtocol.CompressedStep`: which packets are restored;
  `VjChoice.FormIff`: which are compressed; `VjChoice.LeastRecentlyUsed`: which connection gives up its number.
- `VjCompress.SlCompress.CompressTcp` and `UncompressTcp`: the code with its ring of states follows that protocol.
- `SlipDriver.Convey` and `SlipDriver.ConveyPlain`: the serial line end to end, with and without compression.
- `SlipFrame.FrameDelivered`: framing from any state of the receiver.
- `QuadDivRem.Qdivrem` and `QuadMultiply.Muldi3`: exact division and multiplication; `QuadSigned.Divide`: the signed case.
- `SockBuf.Serve`: socket buffers as queues of records over any run of the seven operations.
- `SockReceive.Socket.ReceiveAll`: what a whole receive call hands out and leaves; `SockReceive.SpinsIff`, `PeekAgrees` and
  `CallKeeps`: when it starts over, that looking agrees with taking, and that nothing is lost.
- `ListenQueue.Serve`: connections are accepted in the order of their completion.
- `BpfMeaning.FilterMatches`: what a filter accepts, for every list of tests and every packet; `BpfMeaning.DecodeByFields`,
  `JumpLaw`, `ArithLaw` and `LoadLaw`: the machine behind it.
- `BpfFilter.SafeIff` and `BpfFilter.ReadsInsideIff`: what the program check guarantees and what it does not.
- `BpfBuffer.Serve`: captured packets are neither lost nor reordered, except those counted as dropped.
- `Callout.Serve`: no function is called early; `Callout.CancelKeeps`: when cancelling changes no other timer.
- `MbufChains.Pullup` and `RouteMessages.Trip`: buffer chains rearranged without loss, routing messages there and back.

## What does not hold

Where the code does not do what one would expect, the model follows the code. Each point names an input for which the expectation
fails and the member that says exactly when it is met.

- A lookup of the all-ones destination returns the sentinel even if a route covers it: `RadixRouting.AllOnesExample`;
  `RadixRouting.RadixHead.Match`.
- Deleting a route ignores the given mask when its key is not stored twice: `RadixRouting.OtherMaskExample`;
  `RadixRouting.RadixHead.Delete`, and for runs `RadixRouting.RunAsIntended`.
- A special encoding of compressed headers does not carry the urgent bit: `VjProtocol.UrgentLingers`;
  `VjProtocol.CompressedStep`.
- Signed quotient and remainder do not make up the dividend, because the remainder has the wrong sign for a negative divisor, and
  for -2^63 divided by -1 because the quotient wraps around: `QuadSigned.WrongSign`, `QuadSigned.WrappedAround`;
  `QuadSigned.SignedDivision`, `QuadSigned.Divide`.
- The filter check does not look at loads and stores of the index register, nor at jumps backwards: `BpfFilter.StxSlips`;
  `BpfFilter.SafeIff`.
- A filter can load from in front of the packet, since the sum of offset and size wraps around: `BpfFilter.LoadSlips`;
  `BpfFilter.ReadsInsideIff`.
- Cancelling an overdue timer makes the next one early if that is still to come: `Callout.EarlyAfterCancel`; `Callout.CancelKeeps`.
- Peeking at a socket clears the at-mark state, although it leaves queue, counts and mark alone: `SockReceive.PeekClearsMark`;
  `SockReceive.Socket.Receive`.
- A receive call that finds no octet in the first record starts over, and one that peeks then never ends: with MSG_DONTWAIT, for
  instance, on a single empty record, where a call that may wait goes to sleep (`SockReceive.EmptyRecordExample`);
  `SockReceive.SpinsIff`, and for a single pass `SockReceive.AgainIff`. A call that takes always ends, and
  `SockReceive.PeekAgrees` says when looking agrees with it.
- Copying nothing to a place behind the end of a packet extends its chain but not the length in its header:
  `RouteMessages.ExtendedExample`; `RouteMessages.CopyBack`.

## Model

| member | source | states |
|---|---|---|
| RadixTree.SearchExact | generic/net/radix.c:91-106 | in every well-shaped tree, following the bits of a key ends at a leaf with that key exactly when the key is stored |
| RadixTree.SearchFinds | generic/net/radix.c:91-106 | following a stored key ends at its own leaf |
| RadixTree.PlugShaped | generic/net/radix.c:301-331 | the PATRICIA shape (bit indices grow downwards, keys below a node agree on earlier bits, left is 0 and right is 1) of a whole tree is that of a subtree and of its surroundings |
| RadixTree.PlugTable | generic/net/radix.c:301-331 | the keys of a whole tree are those of a subtree and of its surroundings, which are disjoint |
| RadixTree.PlugAnnotated | generic/net/radix.c:485-524 | the mask lists of a whole tree are right exactly if they are right in a subtree and around it |
| RadixTree.CtxSwap | generic/net/radix.c:485-524 | nodes above a position depend only on masks short enough to be lifted past it |
| RadixLookup.HitIsBest | generic/net/radix.c:213-239 | a masked search that succeeds at a listed mask, after the earlier ones failed, found the covering route with the longest mask of the whole table |
| RadixLookup.MissedMask | generic/net/radix.c:225-237 | a masked search that fails rules out every covering route with that mask |
| RadixLookup.MaskedSearchSound | generic/net/radix.c:226-236 | a leaf with the mask in hand that equals the masked destination from the compared octet on covers the destination, whatever the scratch key held before that |
| RadixLookup.MaskedSearchComplete | generic/net/radix.c:226-236 | if a covering route with the mask is below the node, the masked search ends at its leaf |
| RadixLookup.LeafIsBest | generic/net/radix.c:177-210 | the leaf that plain search reaches, if it equals or covers the destination, is the longest match |
| RadixLookup.LeafFails | generic/net/radix.c:191-212 | if it does not, no covering route has a mask longer than the bit above the leaf |
| RadixLookup.ListedOnPath | generic/net/radix.c:213-239 | every covering route with a mask between two bits of the path is listed at the lower of the two nodes |
| RadixLookup.CoveringBelow | generic/net/radix.c:213-239 | a covering route whose mask goes beyond the bit above a position on the path is stored at or below the position |
| RadixLookup.StoredBelow | generic/net/radix.c:213-239 | a stored key that agrees with the destination on the bits examined so far is stored further down |
| RadixMemory.Spliced | generic/net/radix.c:314-330 | linking a new internal node and a new leaf into an edge yields exactly the joined tree |
| RadixMemory.Unspliced | generic/net/radix.c:617-620 | unlinking a leaf and its internal node yields exactly the tree without them, the sibling in their place |
| RadixMemory.Moved | generic/net/radix.c:642-655 | copying an internal node to another address and redirecting its three links yields the same tree at another address |
| RadixMemory.SetCell | generic/net/radix.c:385-525 | overwriting one node, links kept, changes just that node of the tree |
| RadixUpdate.DivergesHere | generic/net/radix.c:283-309 | all keys below the edge found by the descent agree with the new key before the differing bit and differ from it there |
| RadixUpdate.JoinShaped | generic/net/radix.c:314-330 | joining the new leaf in at the differing bit keeps the PATRICIA shape |
| RadixUpdate.JoinTable | generic/net/radix.c:314-330 | and adds exactly the new key |
| RadixUpdate.PromoteNode | generic/net/radix.c:476-484 | splitting the mask list of the subtree at the bit of the new node gives both nodes the masks that belong to them |
| RadixUpdate.PromoteLeaf | generic/net/radix.c:466-475 | a leaf whose mask now applies at the new node gets a block that is listed there |
| RadixUpdate.JoinAnnotated | generic/net/radix.c:462-484 | after promotion the mask lists are right everywhere, the new leaf aside |
| RadixUpdate.ListBlock | generic/net/radix.c:485-524 | listing the new block at the highest node its mask applies to, longest mask first, makes all mask lists right |
| RadixUpdate.NotYetListed | generic/net/radix.c:500-512 | no block with the same mask can be in that list, so the branch that shares one is never taken |
| RadixUpdate.SoleOwner | generic/net/radix.c:559-566 | no other leaf refers to the block of a route, so its reference count is always used up |
| RadixUpdate.BlockIsListed | generic/net/radix.c:571-582 | the block of a route is in the list where deletion looks for it, so the complaint that it is not cannot appear |
| RadixUpdate.DropBlock | generic/net/radix.c:575-580 | taking the block out leaves all mask lists right, the leaf that goes aside |
| RadixUpdate.DemoteNode | generic/net/radix.c:624-628 | appending the masks of the removed node to the list of an internal node below keeps that list complete and sorted |
| RadixUpdate.DemoteLeaf | generic/net/radix.c:629-640 | the only mask listed at the removed node for a leaf below is its own, so no mask is ever orphaned |
| RadixUpdate.UnspliceAnnotated | generic/net/radix.c:617-641 | after demotion all mask lists are right |
| RadixUpdate.UnspliceShaped | generic/net/radix.c:617-620 | removing a leaf and its internal node keeps the shape and removes exactly one key |
| RadixState.NoRouteCoversZeros | generic/net/radix.c:184-190 | no stored route covers the all-zero destination, which its sentinel answers |
| RadixState.SentinelsFound | generic/net/radix.c:177-190 | search ends at a sentinel with the key searched for exactly if that key is all zeros or all ones |
| RadixState.StepUp | generic/net/radix.c:213-215 | one node up from a position on the path of a key is again on it, and covers a longer stretch of the table |
| RadixState.FirstBitAgrees | generic/net/radix.c:171-176 | the leaf that search reaches agrees with the key in the first bit |
| RadixState.ParentBelowRoot | generic/net/radix.c:617-620 | the internal node above the leaf of a route is never the root |
| RadixState.JoinRepresents | generic/net/radix.c:301-331 | memory still is exactly a correctly linked tree after an insertion |
| RadixState.UnspliceRepresents | generic/net/radix.c:594-620 | and after a removal |
| RadixState.RoutesAdded | generic/net/radix.c:379-525 | the route table gains exactly the new route |
| RadixState.RoutesRemoved | generic/net/radix.c:527-660 | the route table loses exactly the deleted route |
| RadixState.PairedAfter | generic/net/radix.c:642-659 | every route still has the internal node in use that was allocated with it |
| RadixState.Position | generic/net/radix.c:500-512 | where a block goes in a list kept longest mask first, the mask not being in it |
| RadixRouting.RadixHead.constructor | generic/net/radix.c:701-730 | a fresh head holds no route and is well formed: a node for the first bit above the two sentinel leaves |
| RadixRouting.RadixHead.Search | generic/net/radix.c:91-106 | the loop reaches the leaf that the tree search defines, at its place in memory |
| RadixRouting.RadixHead.FirstDifference | generic/net/radix.c:180-192 | the first position, counted in bits, in which destination and leaf key differ, or that there is none |
| RadixRouting.RadixHead.MaskInto | generic/net/radix.c:223-229 | the scratch key holds the masked destination from the offset on |
| RadixRouting.RadixHead.TryMask | generic/net/radix.c:225-237 | trying one listed mask either finds the longest match or rules the mask out |
| RadixRouting.RadixHead.TryMasks | generic/net/radix.c:213-239 | trying the masks of a node, longest first, finds the longest match or rules them all out |
| RadixRouting.RadixHead.LeafCovers | generic/net/radix.c:194-210 | whether the leaf reached covers the destination by its mask |
| RadixRouting.RadixHead.Climb | generic/net/radix.c:212-240 | the way up finds the longest match, or there is no covering route |
| RadixRouting.RadixHead.Match | generic/net/radix.c:155-241 | a lookup hits exactly when some stored route covers the destination and the destination is not all ones; the hit has the longest mask of all that cover it; a sentinel is returned exactly for all zeros and all ones; the table is unchanged |
| RadixRouting.RadixHead.FindEdge | generic/net/radix.c:301-309 | the descent stops at the edge where the new node belongs |
| RadixRouting.RadixHead.LinkPair | generic/net/radix.c:250-266 | the new pair is linked into that edge |
| RadixRouting.RadixHead.Insert | generic/net/radix.c:268-331 | a new key gets a leaf and an internal node, joined in where its path leaves the tree, and the shape is kept; a key already there is reported and nothing changes |
| RadixRouting.RadixHead.Promote | generic/net/radix.c:465-484 | masks from below move to the new node as far as they apply there |
| RadixRouting.RadixHead.Highest | generic/net/radix.c:489-492 | the climb ends at the highest node the mask applies to |
| RadixRouting.RadixHead.Lift | generic/net/radix.c:485-525 | the mask of the new route is listed where it belongs |
| RadixRouting.RadixHead.ListAt | generic/net/radix.c:493-524 | the block is put into the list, longest mask first |
| RadixRouting.RadixHead.AddRoute | generic/net/radix.c:379-525 | the table gains exactly the new route and shape, links and mask lists stay right; a key already there with the same mask is refused without change |
| RadixRouting.RadixHead.Unlist | generic/net/radix.c:559-582 | the block of a route leaves the list it was in |
| RadixRouting.RadixHead.Demote | generic/net/radix.c:621-641 | masks of the removed node move to what is left below |
| RadixRouting.RadixHead.MoveNode | generic/net/radix.c:642-655 | an internal node still in use takes over the place of the one removed |
| RadixRouting.RadixHead.Unlink | generic/net/radix.c:594-641 | leaf and internal node are taken out |
| RadixRouting.RadixHead.Eliminate | generic/net/radix.c:583-659 | exactly the pair of structures the route was added with is released, whichever internal node was in use |
| RadixRouting.RadixHead.Delete | generic/net/radix.c:527-660 | deleting removes exactly the route for the key and releases its pair, or refuses without change; shape, links and mask lists stay right; the table is the one without the route for key and mask exactly if the key is not there or its route has that mask |
| RadixRouting.Serve | generic/net/radix.c:155-660 | after any run of additions and deletions a lookup answers as a scan of the resulting table would |
| RadixRouting.RemovalMeant | generic/net/radix.c:552-558 | taking a key out takes out the route for key and mask exactly if the key is not there or its route has that mask |
| RadixRouting.RunAsIntended | generic/net/radix.c:527-660 | in every run the table is the one meant up to the first removal under another mask than the stored one, and with that removal it is not |
| RadixRouting.OtherMaskExample | generic/net/radix.c:527-660 | a route added under one mask is no longer found after it was deleted under another |
| RadixRouting.AllOnesExample | generic/net/radix.c:177-190 | the all-ones destination is answered by its sentinel although a stored route covers it |
| VjHeader.ParseEncode | generic/net/slcompress.c:167-168 | a TCP/IP header with options written to octets and read back is the same |
| VjHeader.EncodeParse | generic/net/slcompress.c:416-419 | octets read as headers and written back are the same |
| VjDelta.ChangesRoundTrip | generic/net/slcompress.c:434-463 | the octet of change flags can be read back |
| VjDelta.ReadWritten | generic/net/slcompress.c:94-140 | a number written short or long is read back, with its length |
| VjDelta.CompareSpecial | generic/net/slcompress.c:319-334 | a special encoding is used only if the changes equal the amount of data in the previous packet and nothing else changed |
| VjDelta.CompareCommon | generic/net/slcompress.c:243-292 | a difference exists only if the shape is the same and acknowledgement and sequence number grew by less than 2^16 |
| VjDelta.CompareIff | generic/net/slcompress.c:243-317 | for any two headers: one goes out as a difference to the other exactly if they agree in all that is not expected to change, the urgent pointer changes only with URG, acknowledgement and sequence number grow by less than 2^16, not sequence number, window and urgent pointer are all told, and something changed or this is data behind a packet without |
| VjDelta.ChangesIff | generic/net/slcompress.c:319-349 | which changes are announced: each of the two special encodings exactly where it applies, otherwise exactly what changed |
| VjDelta.NumbersInOrder | generic/net/slcompress.c:264-349 | the numbers sent, in order: urgent pointer, window, acknowledgement, sequence number, IP id, each only if it is needed |
| VjDelta.ChangesValue | generic/net/slcompress.h:95-107 | the octet of changes, flag by flag, as a number |
| VjDelta.NumberValue | generic/net/slcompress.c:94-124 | a number on the line, as octets |
| VjDelta.RebuildInverts | generic/net/slcompress.c:455-493 | applying an encoded difference to the saved header gives the new header, but for the reserved bits and, with a special encoding, the urgent bit of the saved one |
| VjProtocol.ToFrontIsOrder | generic/net/slcompress.c:219-230 | moving a slot to the front leaves a permutation of the slots |
| VjProtocol.PlaceMeans | generic/net/slcompress.c:178-217 | a hit is the most recently used slot of the connection; without one the least recently used slot is taken |
| VjProtocol.UncompressedStep | generic/net/slcompress.c:386-390 | a packet sent uncompressed is restored and leaves both ends in step |
| VjProtocol.CompressedStep | generic/net/slcompress.c:337-379 | what a compressed packet comes out as; that is the packet sent exactly if its length and IP checksum are right, reserved bits are unchanged and no special encoding hides an urgent bit; in that case both ends stay in step |
| VjProtocol.Step | generic/net/slcompress.c:142-391 | the same for every packet, with arbitrary octets behind it in the receive buffer |
| VjProtocol.AssembledExact | generic/net/slcompress.c:495-530 | the packet the receiver assembles is the original exactly in that case |
| VjProtocol.ConformantRestorable | generic/net/slcompress.c:142-391 | for conformant headers, and slots filled by such, that case always holds |
| VjProtocol.RunDelivers | generic/net/slcompress.c:394-535 | every run of conformant packets over any number of connections comes out as it went in and leaves both ends in step |
| VjProtocol.InitialInStep | generic/net/slcompress.c:69-87 | as they are initialised the ends are in step |
| VjProtocol.ChecksumVerifies | generic/net/slcompress.c:521-529 | a header that carries the checksum adds up to 0xffff, folded as a receiver folds it |
| VjProtocol.UrgentLingers | generic/net/slcompress.c:463-474 | two packets of one connection with right lengths and checksums, sent from the initial ends: the first comes out as it is, the second has no urgent bit and comes out with one |
| VjChoice.FieldValues | generic/net/slcompress.c:167-168 | every field of a parsed header, by the octets of the packet |
| VjChoice.FlagBits | generic/net/slcompress.c:167-170 | every TCP flag, by the bits of its octet |
| VjChoice.FormIff | generic/net/slcompress.c:157-391 | for every state of the sender and every packet: it goes out as it is exactly if it is a fragment, shorter than 40 octets or has not just ACK of the four control bits set; compressed exactly if not, its connection is known and its header can be told from the saved one |
| VjChoice.CompressedOctets | generic/net/slcompress.c:337-379 | the octets of a compressed packet: changes, connection number exactly if it may not be left out or is not the last one sent, checksum, numbers, data |
| VjChoice.LeastRecentlyUsed | generic/net/slcompress.c:178-230 | after any run of packets the numbers are in the order of their last use, and a connection not known gets the number unused for the longest time |
| VjChoice.DiscardsUntilNamed | generic/net/slcompress.c:409-452 | after a frame of unknown type or a number out of range nothing is delivered that leaves its number out, however many come |
| VjChoice.NamedEndsIt | generic/net/slcompress.c:409-452 | a packet that names its connection ends the discarding exactly if it is delivered |
| VjChoice.DeliversIff | generic/net/slcompress.c:394-535 | whatever arrives is delivered exactly if the receiver does not discard afterwards |
| VjCompress.RingTurned | generic/net/slcompress.c:205-217 | setting back the end of the ring makes the least recently used state the most recently used |
| VjCompress.RingMoved | generic/net/slcompress.c:219-229 | unlinking a state and linking it in front keeps a single cycle through all states, the others in their order |
| VjCompress.SlCompress.constructor | generic/net/slcompress.c:69-87 | the initial ring and tables |
| VjCompress.SlCompress.Find | generic/net/slcompress.c:193-203 | the search along the ring ends at the first state of the connection in order of use, or at the last one |
| VjCompress.SlCompress.Locate | generic/net/slcompress.c:178-230 | the state of the connection, or the least recently used one, is moved to the front and the ring stays one cycle |
| VjCompress.SlCompress.CompressTcp | generic/net/slcompress.c:142-391 | packet and new state are those of the protocol, the receiving half is untouched; the packet goes out as it is, or compressed, exactly in the cases of VjChoice.FormIff |
| VjCompress.SlCompress.UncompressTcp | generic/net/slcompress.c:394-535 | restored packet and new state are those of the protocol; the sending half is untouched |
| VjCompress.SlCompress.UncompressedIn | generic/net/slcompress.c:409-423 | the header of a packet that came uncompressed is filed in the slot it names and the packet restored, as the protocol says |
| VjCompress.SlCompress.CompressedIn | generic/net/slcompress.c:431-452 | a compressed packet is rebuilt from the slot it names or the last one, or discarded, as the protocol says |
| VjCompress.SlCompress.Rebuilding | generic/net/slcompress.c:452-530 | the header is rebuilt, its length and checksum filled in, and a packet that is too short is discarded |
| VjCompress.Collect | generic/net/slcompress.c:264-292 | the numbers sent are urgent pointer, window, acknowledgement and sequence number, each only if it changed, in that order; it gives up exactly if a change is not representable |
| VjCompress.Encoded | generic/net/slcompress.c:243-343 | the encoding chosen is the one the comparison of the headers defines |
| VjCompress.Decoded | generic/net/slcompress.c:455-493 | header and position after decoding are those the rebuilding of headers defines |
| VjCompress.DecodedTcp | generic/net/slcompress.c:476-489 | the same for the numbers of a packet without special encoding |
| VjCompress.IpSum | generic/net/slcompress.c:521-529 | the loop computes the checksum that VjProtocol.ChecksumVerifies is about |
| Clist.Queue.Putc | generic/kern/tty_subr.c:108-136 | one character is appended and the blocks stay well formed |
| Clist.Queue.Append | generic/kern/tty_subr.c:138-172 | a run of characters of any length is appended and the blocks stay well formed |
| Clist.Queue.Drain | uspace/serline.c:33-51 | whatever sizes the writes have, everything queued is written, in order, and the queue is empty |
| Clist.TakenText | uspace/serline.c:34-50 | a partial write takes exactly that many characters off the front |
| SlipFrame.StuffConcat | generic/net/if_sl.c:504-551 | stuffing works octet by octet |
| SlipFrame.FeedStuff | generic/net/if_sl.c:671-786 | a stuffed packet is gathered unchanged, or condemned if it does not fit |
| SlipFrame.FrameDelivered | generic/net/if_sl.c:671-786 | from any state a frame leaves the receiver clean, completes what was gathered before it, and delivers its own packet exactly if that has 3 to SLMAX octets |
| SlipFrame.Resynchronises | generic/net/if_sl.c:687-785 | an end mark restores a clean state after anything |
| SlipFrame.NoiseHarmless | generic/net/if_sl.c:671-786 | whatever noise precedes a frame, its packet is delivered last |
| SlipFrame.StuffedValues | generic/net/if_sl.c:174-177 | the stuffed form of every octet, as numbers |
| SlipFrame.FitsValues | generic/net/if_sl.c:692-700 | a packet is accepted exactly if it has 3 to 1916 octets |
| SlipFrame.GarbledDropped | generic/net/if_sl.c:636-690 | a frame in which anything was garbled is not delivered, whatever else was in it and whatever came before |
| SlipFrame.BehindMark | generic/net/if_sl.c:687-785 | on a clean line a leading end mark makes no difference |
| SlipFrame.FramesDelivered | generic/net/if_sl.c:671-786 | a list of frames delivers exactly its packets of acceptable length, in order; one too long does not harm the next |
| SlipLine.CompressedLength | generic/net/slcompress.c:351-379 | compression never makes a packet longer, nor shorter than the receiver accepts |
| SlipLine.TypeBitIgnored | generic/net/slcompress.c:434-462 | the type bit in the first octet does not disturb the change flags |
| SlipLine.UncompressSame | generic/net/slcompress.c:431-530 | the decompressor does not depend on the type bit |
| SlipLine.TypeValues | generic/net/slcompress.h:89-92 | the types on the line, by the value of the first octet |
| SlipLine.SentForm | generic/net/if_sl.c:462-466 | with compression on, exactly the TCP packets that can be told by a difference go out compressed, the eligible others with their headers, each with its type; all else goes out as it is |
| SlipLine.AcceptCases | generic/net/if_sl.c:711-737 | an IP packet is handed up as it is; any other goes to the decompressor exactly if that is on or may be turned on by it, and is dropped otherwise; it is on from the first packet restored |
| SlipLine.LineStep | generic/net/if_sl.c:711-737 | a conformant packet sent over the line, compressed or not, is accepted and restored whatever the rest of the buffer holds, and the ends stay linked |
| SlipLine.InitiallyLinked | generic/net/if_sl.c:213-232 | as they are set up the ends are linked exactly if the receiver decompresses or may enable it |
| SlipLine.SentFits | generic/net/if_sl.c:692-779 | every frame sent for a conformant packet is of a length the receiver accepts |
| SlipLine.WireHolds | generic/net/if_sl.c:499-569 | the octets on the wire, taken apart, are exactly the packets framed |
| SlipLine.SentAsTheyAre | generic/net/if_sl.c:462-466 | without compression packets of any content are sent as they are and the compressor is untouched |
| SlipLine.HandledPlain | generic/net/if_sl.c:711-737 | a frame that looks like IP is handed up as it is; any other is dropped, and nothing changes, if the receiver neither decompresses nor may begin to |
| SlipLine.PlainDelivered | generic/net/if_sl.c:711-737 | so for whole lists of frames: exactly those that look like IP are handed up, in order |
| SlipLine.AllDelivered | generic/net/if_sl.c:671-786 | whatever handles the frames as specified delivers every list of conformant packets unchanged and in order |
| SlipDriver.PlainRun | generic/net/if_sl.c:513-523 | the run ends at the first special octet, and stuffing leaves it as it is |
| SlipDriver.PutStuffed | generic/net/if_sl.c:507-550 | the stuffed octets are appended to the queue |
| SlipDriver.PutFrame | generic/net/if_sl.c:499-569 | a packet goes out mbuf by mbuf, stuffed, with an end mark behind it and one in front exactly if the line is idle |
| SlipDriver.SlipSender.Dequeue | generic/net/if_sl.c:423-431 | interactive packets go first, each queue in its order |
| SlipDriver.SlipSender.Prepare | generic/net/if_sl.c:462-466 | packet and compression state are those of the line protocol: TCP packets compressed and typed if the interface is set to |
| SlipDriver.SlipSender.Transmit | generic/net/if_sl.c:462-570 | one packet becomes one frame in the queue |
| SlipDriver.SlipSender.Start | generic/net/if_sl.c:387-571 | everything queued goes out as frames, in order, behind what was already on its way |
| SlipDriver.SlipReceiver.Deliver | generic/net/if_sl.c:711-737 | a complete frame is handed up, decompressed according to its type, or dropped, and the state above the framing is exactly the one specified |
| SlipDriver.SlipReceiver.Finish | generic/net/if_sl.c:687-785 | at the end of a frame what was gathered is dealt with as specified, unless it is too short or was spoilt, and the receiver is clean |
| SlipDriver.SlipReceiver.Input | generic/net/if_sl.c:671-786 | one signal changes the receiver as the frame machine says, and a completed frame is dealt with as specified |
| SlipDriver.SlipReceiver.Receive | uspace/spipe.c:94-105 | all octets read are fed to the receiver in turn |
| SlipDriver.PlainWire | generic/net/if_sl.c:499-569 | the frames on the wire hold exactly the packets, with or without the first end mark |
| SlipDriver.ConveyPlain | generic/net/if_sl.c:387-786 | end to end without compression: packets of any 3 to SLMAX octets are on the wire, and after whatever noise those that look like IP come out unchanged and in order, the others being dropped |
| SlipDriver.SendPlain | generic/net/if_sl.c:387-571 | without compression exactly the frames of the packets queued are written |
| SlipDriver.Convey | generic/net/if_sl.c:387-786 | end to end between linked ends: the conformant packets queued at one end come out at the other unchanged and in order, through compression, framing, queue, partial writes, deframing and decompression, and the ends stay linked |
| QuadDivide.Estimate | generic/libkern/qdivrem.c:202-227 | the trial digit is the quotient of the leading digits, capped to a digit |
| QuadDivide.EstimateClose | generic/libkern/qdivrem.c:202-227 | it is the true quotient digit or one more |
| QuadDivide.BorrowStep | generic/libkern/qdivrem.c:234-238 | with 32-bit wrap-around the carried value is the exact borrow |
| QuadDivide.SubtractOne | generic/libkern/qdivrem.c:234-238 | one digit and the borrow out of it are exact in 32-bit arithmetic |
| QuadDivide.MultiplySubtract | generic/libkern/qdivrem.c:228-240 | the digits become the difference, with a borrow exactly if it is negative |
| QuadDivide.BorrowMeans | generic/libkern/qdivrem.c:241-255 | there is a borrow exactly if the trial digit was one too large, and adding the divisor back once leaves the remainder |
| QuadDivide.AddBack | generic/libkern/qdivrem.c:249-254 | the divisor is added back and the carry out dropped |
| QuadDivide.TrialDigit | generic/libkern/qdivrem.c:199-227 | for any numbers whose quotient is one digit the trial digit is that digit or one more |
| QuadDivide.DivideDigit | generic/libkern/qdivrem.c:199-256 | quotient digit and remainder of one step are exact |
| QuadDivRem.ShiftLeft | generic/libkern/qdivrem.c:66-74 | the digits are multiplied by a power of two |
| QuadDivRem.ShiftRight | generic/libkern/qdivrem.c:264-270 | the digits are divided by a power of two |
| QuadDivRem.Normalise | generic/libkern/qdivrem.c:180-192 | both numbers are scaled by the same power of two, below 2^16 |
| QuadDivRem.FirstShift | generic/libkern/qdivrem.c:186-188 | the shift that sets the top bit of a digit |
| QuadDivRem.DivideDigits | generic/libkern/qdivrem.c:193-257 | all quotient digits, with the remainder left behind |
| QuadDivRem.Denormalise | generic/libkern/qdivrem.c:259-274 | scaling both numbers scales the remainder and leaves the quotient |
| QuadDivRem.SkipLeading | generic/libkern/qdivrem.c:169-178 | leading zeros of the dividend are skipped, and there are never too many |
| QuadDivRem.LongDivide | generic/libkern/qdivrem.c:180-278 | exact quotient and remainder for a divisor of two or more digits |
| QuadDivRem.ShortDivide | generic/libkern/qdivrem.c:141-166 | exact quotient and remainder for a divisor of one digit |
| QuadDivRem.Qdivrem | generic/libkern/qdivrem.c:84-279 | for every 64-bit dividend and every non-zero divisor the exact quotient and remainder |
| QuadMultiply.Karatsuba | generic/libkern/muldi3.c:47-77 | the identity the multiplication is based on |
| QuadMultiply.AddPair | generic/libkern/muldi3.c:228-237 | adding word by word, with the carry read off the wrapped low word, is addition modulo 2^64 |
| QuadMultiply.SubPair | generic/libkern/muldi3.c:224-228 | the same for subtraction and borrow |
| QuadMultiply.Assemble | generic/libkern/muldi3.c:219-245 | the three partial products add up to the exact product |
| QuadMultiply.Lmulq | generic/libkern/muldi3.c:188-246 | the exact 64-bit product of any two words |
| QuadMultiply.TopWord | generic/libkern/muldi3.c:157-162 | the upper word needs the partial products modulo a word only |
| QuadMultiply.MulWords | generic/libkern/muldi3.c:129-163 | the product modulo 2^64 |
| QuadMultiply.Muldi3 | generic/libkern/muldi3.c:103-169 | the signed product modulo 2^64, for all numbers including the most negative one |
| QuadSigned.Divdi3 | generic/libkern/divdi3.c:48-65 | the quotient rounded towards zero, modulo 2^64 |
| QuadSigned.Moddi3 | generic/libkern/moddi3.c:50-67 | the remainder of the magnitudes, with the sign the code gives it |
| QuadSigned.SignedDivision | generic/libkern/moddi3.c:57-66 | dividend = divisor * quotient + remainder, with the quotient wrapped to 64 bits, holds exactly if the divisor is positive or divides the dividend and it is not -2^63 divided by -1 |
| QuadSigned.QuotientFits | generic/libkern/divdi3.c:55-64 | the quotient fits 64 bits exactly unless it is -2^63 divided by -1, which gives -2^63 and remainder 0 |
| QuadSigned.Divide | generic/libkern/moddi3.c:50-67 | the same equivalence for what the two routines return |
| QuadSigned.WrongSign | generic/libkern/moddi3.c:61-66 | 7 and -2: the routines return -3 and -1, for which it does not hold |
| QuadSigned.WrappedAround | generic/libkern/divdi3.c:55-64 | -2^63 and -1: the routines return -2^63 and 0, for which it does not hold |
| SockBuf.CompactDiscard | generic/kern/uipc_socket2.c:648-656 | leaving out an empty buffer loses neither octets nor a record mark |
| SockBuf.CompactJoin | generic/kern/uipc_socket2.c:657-666 | copying a buffer into the last one keeps octets, their types and the bounds of its storage |
| SockBuf.CompactLink | generic/kern/uipc_socket2.c:667-675 | linking a buffer keeps octets and types |
| SockBuf.Buffer.Compress | generic/kern/uipc_socket2.c:641-683 | the chain is added to the last record: octets with their types in order, both counts right, a mark on the last buffer, nothing left uncompacted; there always is a buffer for the mark |
| SockBuf.Buffer.Append | generic/kern/uipc_socket2.c:437-456 | the octets go to the end of the queue, in the last record or in a new one if that is complete |
| SockBuf.Buffer.AppendRecord | generic/kern/uipc_socket2.c:485-512 | a new record is added and the others are untouched; a mark ends up on its last buffer |
| SockBuf.Buffer.LastComplete | generic/kern/uipc_socket2.c:445-454 | whether the last record is marked as complete |
| SockBuf.Buffer.AppendAddr | generic/kern/uipc_socket2.c:563-603 | address, control and data become one record exactly if there is space; otherwise nothing changes |
| SockBuf.Buffer.AppendControl | generic/kern/uipc_socket2.c:605-634 | control and data become one record exactly if there is space; otherwise nothing changes |
| SockBuf.Buffer.AddRecord | generic/kern/uipc_socket2.c:594-602 | a chain is counted in and queued as it is |
| SockBuf.Buffer.Drop | generic/kern/uipc_socket2.c:704-741 | exactly the first octets leave the queue, record by record: those used up are gone, the next one loses its front and keeps its mark, the others are untouched; counts stay right |
| SockBuf.Buffer.DropRecord | generic/kern/uipc_socket2.c:747-760 | exactly the first record leaves the queue |
| SockBuf.Buffer.Flush | generic/kern/uipc_socket2.c:689-699 | terminates with both counts zero and no buffer left, also with empty buffers and records |
| SockBuf.CutIs | generic/kern/uipc_socket2.c:704-741 | what dropping octets leaves: the record in which it ends goes if it is used up and otherwise loses its front, its mark coming closer by as much; those behind it stay |
| SockBuf.CutOctets | generic/kern/uipc_socket2.c:704-741 | cutting records takes exactly the first octets of the queue away |
| SockBuf.StepIsFifo | generic/kern/uipc_socket2.c:437-760 | every one of the seven operations is first in, first out: what it removes is the front of the octets, what it adds goes behind them |
| SockBuf.Do | generic/kern/uipc_socket2.c:437-760 | each operation does to the queue of records what its definition says, and is refused exactly if there is no space for it; the counts stay right |
| SockBuf.Serve | generic/kern/uipc_socket2.c:437-760 | in any run of sbappend, sbappendrecord, sbappendaddr, sbappendcontrol, sbdrop, sbdroprecord and sbflush the buffer holds at every point the records, with their marks, that a replay on plain octet strings gives; the refused operations are exactly those without space; both counts are right; it ends early only at a drop of more than there is |
| SockReceive.TakeKeeps | generic/kern/uipc_socket.c:656-732 | what is taken and what is left make up the record |
| SockReceive.TakeAmount | generic/kern/uipc_socket.c:667-671 | exactly as much is taken as asked for, the mark and the extent of the data allow |
| SockReceive.Delivered | generic/kern/uipc_socket.c:597-732 | address, control part, delivered octets and rest make up the first record |
| SockReceive.AgainIff | generic/kern/uipc_socket.c:768-773 | a pass is to be repeated exactly if neither address nor control part is handed out, octets are asked for and may still come, and the first record begins with none and with no mark; no octet is delivered exactly if none is asked for or there is none |
| SockReceive.AgainEnds | generic/kern/uipc_socket.c:768-773 | taking and starting over frees storage each time, so it ends |
| SockReceive.PeekAgain | generic/kern/uipc_socket.c:686-773 | a pass that looks and is to be repeated leaves the queue as it is, so the next one is to be repeated as well |
| SockReceive.SpinsIff | generic/kern/uipc_socket.c:530-773 | for every queue, the empty one included: a call passes the test for waiting and starts over exactly if the first record gives nothing and the call must not wait, or there is a second record, the protocol is atomic, enough is queued, an error is pending or something urgent or complete is there; exactly then one that looks never ends, and one that takes always ends |
| SockReceive.PeekAgrees | generic/kern/uipc_socket.c:530-773 | a call that looks ends as one that takes would, and with the same, exactly unless it never ends; it leaves the queue as it is |
| SockReceive.CallKeeps | generic/kern/uipc_socket.c:530-773 | however often a call starts over, address, control part, data and the queue left make up the queue, also if it ends up waiting; only control information that is not wanted is lost |
| SockReceive.CallWhole | generic/kern/uipc_socket.c:530-773 | for a protocol whose records are taken whole, a call takes records off the front and leaves the others as they are; those passed over give nothing, and if octets of the one delivered are dropped the caller is told |
| SockReceive.VerdictIff | generic/kern/uipc_socket.c:546-590 | for every queue and every kind of call, exactly when it goes on, fails, ends with nothing, would block or sleeps |
| SockReceive.FlagsMean | generic/kern/uipc_socket.c:646-732 | what a caller is told: out-of-band exactly if the data begin so, and then all octets are; the end of a record exactly if the data reach the end of a marked buffer; at the mark exactly if as many octets were taken as were in front of it |
| SockReceive.EorIff | generic/kern/uipc_socket.c:686-690 | the end of a record is reported exactly if a marked buffer is used up within what is asked for and in front of the mark |
| SockReceive.Socket.Check | generic/kern/uipc_socket.c:546-590 | the test for waiting gives the verdict defined |
| SockReceive.Socket.ReceiveAll | generic/kern/uipc_socket.c:530-779 | a whole call, passes and tests in turn, ends as defined and leaves queue, counts, mark and at-mark state as defined |
| SockReceive.EmptyRecordExample | generic/kern/uipc_socket.c:546-773 | a single record of one empty buffer: a call that may wait goes to sleep; one that must not wait never ends if it looks, and if it takes it removes the record and would block |
| SockReceive.Socket.TakeParts | generic/kern/uipc_socket.c:597-732 | address, control part and data of the first record are handed out in turn |
| SockReceive.Socket.TakeOne | generic/kern/uipc_socket.c:666-730 | one round of the data loop: amount, rest, counts and mark |
| SockReceive.PeekClearsMark | generic/kern/uipc_socket.c:666-730 | after an octet was taken up to the mark, looking at the next one clears the at-mark state |
| SockReceive.Socket.TakeAddress | generic/kern/uipc_socket.c:598-620 | the address buffer in front, if there is one, is handed out and counted off unless only looked at |
| SockReceive.Socket.TakeLoop | generic/kern/uipc_socket.c:654-732 | the loop hands out the data the record-level definition says; looking changes no count and no mark, taking keeps the counts right |
| SockReceive.Socket.TakeControls | generic/kern/uipc_socket.c:621-646 | the control buffers in front are taken |
| SockReceive.Socket.Choose | generic/kern/uipc_socket.c:667-671 | the amount taken at once |
| SockReceive.Socket.PassMark | generic/kern/uipc_socket.c:718-730 | the distance to the mark shrinks, in place or by an offset |
| SockReceive.Socket.PutBack | generic/kern/uipc_socket.c:755-762 | the rest of the record goes back, or is dropped if records are delivered whole |
| SockReceive.Socket.Receive | generic/kern/uipc_socket.c:597-776 | looking hands out exactly what taking would and leaves queue, counts and mark alone; the at-mark state is set exactly when taking reaches the mark and cleared whenever there are data, so that looking leaves it alone exactly if it was clear, nothing is asked for or there are no data; taking leaves exactly the rest of the first record, or, if records are delivered whole, exactly the records after it; the counts stay right |
| ListenQueue.ListAppended | generic/kern/uipc_socket2.c:189-202 | linking a socket in at the end extends the list by it |
| ListenQueue.ListRemoved | generic/kern/uipc_socket2.c:211-230 | unlinking a socket removes just it |
| ListenQueue.Listener.Insert | generic/kern/uipc_socket2.c:184-203 | the socket is at the end of the list, and the count with it |
| ListenQueue.Listener.Find | generic/kern/uipc_socket2.c:211-220 | the walk finds a socket exactly if it is on the list |
| ListenQueue.Listener.Remove | generic/kern/uipc_socket2.c:205-231 | the socket is off the list and has no listener; if it was not on it, nothing changes |
| ListenQueue.Listener.NewConn | generic/kern/uipc_socket2.c:147-182 | a request is queued exactly if at most 3/2 of the limit are waiting and the protocol attaches |
| ListenQueue.Listener.IsConnected | generic/kern/uipc_socket2.c:96-112 | an incomplete connection moves to the end of the complete ones; any other stays |
| ListenQueue.Listener.Free | generic/kern/uipc_socket.c:135-149 | a socket still in use stays; any other goes, and if it has a listener it is on exactly one list and leaves it, so the panic is unreachable |
| ListenQueue.Listener.Accept | generic/kern/uipc_syscalls.c:170-174 | the connection completed first is handed out |
| ListenQueue.StaysOrderly | generic/kern/uipc_socket2.c:96-231 | every event keeps accepted and waiting connections in the order of completion, on exactly one list, within the limit |
| ListenQueue.RunOrderly | generic/kern/uipc_socket2.c:96-231 | so does every run |
| ListenQueue.Serve | generic/kern/uipc_socket2.c:96-231 | any run on the linked lists does what the history says: order of completion, counts, and at most 3*limit/2 + 1 waiting |
| BpfFilter.Validate | generic/net/bpf_filter.c:508-547 | the check accepts exactly the programs whose jumps and scratch accesses it looks at are in range and that end in a return |
| BpfFilter.SafeStep | generic/net/bpf_filter.c:192-493 | an instruction the check let pass, if jumps lead forward and index-register slots are in range, never divides by zero, stays in the scratch memory and moves forward within the program, wherever its packet loads go |
| BpfFilter.SafeIff | generic/net/bpf_filter.c:516-546 | for an accepted program that holds exactly where unconditional jumps go forward without overflow and index-register loads and stores are in range |
| BpfFilter.BoundsTest | generic/net/bpf_filter.c:207-265 | the test of a packet load on 32-bit numbers: an offset of a word or half-word load just below zero passes |
| BpfFilter.ReadsInside | generic/net/bpf_filter.c:207-335 | an instruction that does not load from in front of the packet does not depend on what is there |
| BpfFilter.ReadsInsideIff | generic/net/bpf_filter.c:207-335 | an instruction never loads from in front of the packet exactly if it is no such load, loads single octets, or loads at a fixed offset that is not just below zero |
| BpfFilter.RunReturns | generic/net/bpf_filter.c:190-495 | a run of a program in order returns within as many instructions as the program has |
| BpfFilter.StxSlips | generic/net/bpf_filter.c:532-539 | a program that is accepted and stores outside the scratch memory |
| BpfFilter.LoadSlips | generic/net/bpf_filter.c:207-228 | a program that is accepted and in order, in which a load depends on what is in front of the packet, whatever the packet |
| BpfFilter.Machine.Do | generic/net/bpf_filter.c:192-493 | one instruction does to registers, scratch memory and program counter what the step function says |
| BpfFilter.Machine.Filter | generic/net/bpf_filter.c:170-495 | for every program and packet whose run does not go astray the interpreter returns what the instructions, taken one by one, amount to |
| BpfFilter.Machine.FilterTrusted | generic/net/bpf_filter.c:170-495 | a program that was accepted and is in order at every instruction never goes astray |
| BpfMeaning.DecodeByFields | generic/net/bpf.h:165-215 | for every code: the interpreter takes it for what its class, size, mode, operation and source fields say, and knows no other |
| BpfMeaning.JumpLaw | generic/net/bpf_filter.c:383-416 | where every conditional jump goes, by the relation of the unsigned operands |
| BpfMeaning.ArithLaw | generic/net/bpf_filter.c:418-485 | the accumulator after every arithmetic instruction, as numbers and bit by bit; division by zero |
| BpfMeaning.SubtractionUndoes | generic/net/bpf_filter.c:450-456 | subtraction undoes addition |
| BpfMeaning.LoadLaw | generic/net/bpf_filter.c:207-335 | a load inside the packet takes the number that its octets are, most significant first; one beyond its end rejects it |
| BpfMeaning.RegisterLaw | generic/net/bpf_filter.c:196-381 | returns, constants, lengths, transfers, negation, the jump and the header length |
| BpfMeaning.MemoryLaw | generic/net/bpf_filter.c:363-378 | what is stored in a word of the scratch memory is loaded from it, whatever is stored elsewhere |
| BpfMeaning.AcceptedIff | generic/net/bpf_filter.c:508-547 | for programs of known codes, exactly what the check requires, by what the instructions do |
| BpfMeaning.MatchesFrom | generic/net/bpf_filter.c:170-495 | from every test on, such a program returns the wanted value if all octets from there on are as wanted, and otherwise zero |
| BpfMeaning.MatcherTrustworthy | generic/net/bpf_filter.c:508-547 | such a program passes the check and is in order |
| BpfMeaning.FilterMatches | generic/net/bpf_filter.c:170-495 | for every list of up to 128 tests of numbers in a packet for equality, order or common bits, and for every packet: the filter returns the wanted value exactly if all hold, whatever registers and memory hold at first |
| BpfMeaning.FilterIp | generic/net/bpf_filter.c:170-495 | the filter for IP in Ethernet frames returns the wanted value exactly if the octets at 12 and 13 are 8 and 0 |
| BpfBuffer.HeaderFields | generic/net/bpf.h:127-142 | where the fields are in the header of a record |
| BpfBuffer.HoldsMore | generic/net/bpf.c:1111-1157 | a record written at the next word boundary is added to those in the buffer |
| BpfBuffer.HoldsKept | generic/net/bpf.c:1140-1157 | writing behind the records in a buffer leaves them alone |
| BpfBuffer.Parse | generic/net/bpf.h:43-48 | stepping from header to header gives back the records of a buffer |
| BpfBuffer.Descriptor.constructor | generic/net/bpf.c:1163-1179 | a new descriptor has its store and free slots filled, its hold slot empty and no records |
| BpfBuffer.Descriptor.Rotate | generic/net/bpf.c:402-407 | store becomes hold and free becomes store |
| BpfBuffer.Descriptor.Catch | generic/net/bpf.c:1091-1158 | the packet is stored, after a rotation if need be, or dropped and counted exactly if there is no room and no free buffer; what is stored is the front of the packet, no more than asked for, and less than both only if it fills the buffer |
| BpfBuffer.Descriptor.Store | generic/net/bpf.c:1140-1157 | the record is appended to those stored |
| BpfBuffer.WriteRecord | generic/net/bpf.c:1140-1157 | header and data written at the next word boundary make the buffer hold one record more |
| BpfBuffer.Descriptor.Read | generic/net/bpf.c:412-490 | a request of another size is refused, a sleep goes on or is interrupted, each exactly when it should and without loss; otherwise the reader gets exactly the records on hold, or those stored |
| BpfBuffer.Descriptor.Reset | generic/net/bpf.c:562-575 | everything is forgotten and the slots stay in order |
| BpfBuffer.Serve | generic/net/bpf.c:402-575 | in any run of packets, reads and resets the records read since the last reset, held and stored are the ones of the packets captured since, in order, each with as much of its packet as has to be kept, minus exactly those counted as dropped |
| Callout.InsertedInside | uspace/timers.c:146-156 | an entry put in behind others delays those after it and no other |
| Callout.InsertedFirst | uspace/timers.c:133-138 | an entry put in front changes the time of no other |
| Callout.NewWaits | uspace/timers.c:120-157 | a new entry waits at least as long as asked |
| Callout.CountedIsTicked | uspace/timers.c:203-210 | the counting loop changes the queue into the queue one tick later |
| Callout.CalloutQueue.Timeout | uspace/timers.c:120-157 | the new entry is put where the queue of differences calls for; it waits at least as long as asked, and exactly as long if nothing is overdue; no other gets earlier, and none that is due no later than it is held up |
| Callout.CalloutQueue.Place | uspace/timers.c:126-154 | the place of a new entry and the difference left for it there: it is behind all that are due no later and in front of the next |
| Callout.CalloutQueue.Untimeout | uspace/timers.c:162-188 | the first matching entry goes and passes its ticks on; unless it was overdue and the next one was not, no entry can run before its time |
| Callout.CancelKeeps | uspace/timers.c:169-187 | cancelling leaves the time of all others alone exactly if the entry was not overdue with something still to come right after it |
| Callout.EarlyAfterCancel | uspace/timers.c:162-188 | a run from the empty queue in which, after an overdue entry in front of one still to come was cancelled, a function is called after three ticks that no request justifies, four having been asked for |
| Callout.CalloutQueue.Hardclock | uspace/timers.c:192-217 | a tick brings every entry not yet due exactly one tick closer, however many are overdue in front |
| Callout.CalloutQueue.Pop | uspace/timers.c:251-256 | the first entry is run only when it is due |
| Callout.Serve | uspace/timers.c:120-262 | any run, up to the first cancellation of an overdue entry with one still to come right behind it, calls what the replay of its events says, and no function before the ticks asked for have passed |
| MbufChains.Seek | generic/kern/uipc_mbuf.c:348-355 | the buffer that holds an offset, and the offset within it |
| MbufChains.CopyM | generic/kern/uipc_mbuf.c:333-398 | the copy has exactly the octets asked for, types included, and a true header if any |
| MbufChains.CopyChain | generic/kern/uipc_mbuf.c:358-390 | the buffers copied hold exactly the octets asked for, types included |
| MbufChains.CopyData | generic/kern/uipc_mbuf.c:404-432 | exactly the octets asked for |
| MbufChains.Cat | generic/kern/uipc_mbuf.c:439-457 | the octets of both chains, one after the other |
| MbufChains.TrimHead | generic/kern/uipc_mbuf.c:469-486 | exactly the first octets are gone, at most all of them |
| MbufChains.Truncate | generic/kern/uipc_mbuf.c:509-528 | exactly the first octets are left |
| MbufChains.Adj | generic/kern/uipc_mbuf.c:459-530 | head or tail trimmed, at most all of it, and the header length still true |
| MbufChains.PullStep | generic/kern/uipc_mbuf.c:576-588 | octets move to the first buffer without loss, as far as there is room, until a buffer is used up or enough have moved |
| MbufChains.Pullup | generic/kern/uipc_mbuf.c:542-599 | succeeds exactly if there are enough octets and they fit; then the first ones are contiguous in one buffer and none is lost |
| RouteMessages.CopyBack | generic/net/rtsock.c:382-428 | the octets are in the packet at the offset, gaps are zero and the rest is kept; the header length is true exactly unless nothing was written behind the end of a packet |
| RouteMessages.ExtendedExample | generic/net/rtsock.c:395-402 | copying nothing behind a packet of one octet extends the chain and leaves the header length as it was |
| RouteMessages.Reach | generic/net/rtsock.c:395-406 | the chain is extended with zeros to the offset |
| RouteMessages.WrittenIs | generic/net/rtsock.c:382-428 | octet by octet, what copying into a packet leaves: the octets copied, those there before, or zero |
| RouteMessages.CopiedBack | generic/net/rtsock.c:382-428 | what was copied in can be copied out |
| RouteMessages.Msg1 | generic/net/rtsock.c:430-480 | the message is header and addresses of any set of slots, each padded to words, with its true length; header and packet tell the number of its octets |
| RouteMessages.Msg2 | generic/net/rtsock.c:482-552 | the same octets in a flat buffer, whose first two tell their number modulo 2^16 |
| RouteMessages.PutSlots | generic/net/rtsock.c:509-523 | the second pass fills the flat buffer with the addresses of exactly the slots in use, behind the room for the header |
| RouteMessages.Needed | generic/net/rtsock.c:511-523 | the size of the message, found in the first pass |
| RouteMessages.Xaddrs | generic/net/rtsock.c:360-375 | for any octets, which slots get an address and where it begins |
| RouteMessages.PlacesInOrder | generic/net/rtsock.c:360-375 | for any octets, only announced slots get one, and the addresses begin inside the message, at word boundaries, one behind the other |
| RouteMessages.PlacesOfLayout | generic/net/rtsock.c:360-375 | in a message as the other two routines lay it out every slot in use gets its address where it was put, and no other slot gets one |
| RouteMessages.Trip | generic/net/rtsock.c:360-480 | building, flattening and parsing gives back every subset of the eight slots, each address octet for octet and as long as its first octet says |

## Left out

- RadixRouting.RadixHead.AddRoute: keys are distinct and none is a sentinel key, so the default route, which duplicates the all-zero sentinel, and a second mask for a stored key are outside its precondition; in that path (generic/net/radix.c:415-454) an entry can be linked behind the one it refines and promotion runs on a node that is not new, so the longest match is not claimed for it. Keys come masked, as the callers pass them; non-contiguous masks and the tree of masks (generic/net/radix.c:333-377) are not modelled.
- RadixRouting.RadixHead.Match: keys are bit strings of one fixed width that the first bit decides at the root; varying key lengths and octets skipped at the front are not modelled, nor is the list of duplicated keys.
- RadixRouting.RadixHead.Lift: the block is allocated before the climb, where the code does it after; no other difference, since allocation failure is not modelled. Sharing of blocks by a reference count is left out because it is proved never to happen.
- VjCompress.SlCompress.CompressTcp: the packet is one string of octets with a complete header at its front, of at most 108 octets; statistics and packets shorter than their header are not modelled.
- VjCompress.SlCompress.UncompressTcp: what the decompressor does not check, that an uncompressed packet holds a whole header and that a slot was set up before it is referred to, is its precondition; alignment of the data and the room in front of the buffer are not modelled.
- VjProtocol.RunDelivers: the line loses nothing; recovery after a loss is covered only as far as the discard flag of the receiver goes.
- SlipDriver.SlipReceiver.Deliver: a frame for which the decompressor does not find what it relies on, a whole header or a slot set up before, is dropped without change in the model; the code, which does not check, would go on.
- SlipDriver.SlipSender.Prepare: with compression on, packets have at least the 20 octets of an IP header and TCP packets a complete header, which the code does not check.
- SlipDriver.SlipSender.Start: the driver writes everything out before it returns, as the one in the repository does, so the high-water mark plays no role; packet filter taps, statistics and queue limits are not modelled.
- SlipDriver.SlipReceiver.Input: the escape sequence that closes the line in debug mode, a full input queue and failing allocation are not modelled.
- Clist.Queue.Drain: a write of no characters is not modelled; the loop would then repeat it.
- QuadDivRem.Qdivrem: division by zero traps in the code and is outside the precondition; leaving out the remainder on request is not modelled.
- SockBuf.Buffer.AppendAddr: the packet header is taken to tell the true length, and allocation succeeds. Insertion of out-of-band data at the front, reservation and locking of buffers are left out.
- SockBuf.Serve: a run stops in front of a drop of more than there is, where the code panics. Out-of-band insertion does not occur in the runs.
- SockBuf.Buffer.Compress: chains and queues are sequences of buffers; the relinking of m_next and m_nextpkt and sharing between chains are not modelled.
- SockBuf.Buffer.Drop: dropping more than there is panics in the code and is outside the precondition.
- SockReceive.Socket.Receive: one pass over a queue that is not empty, without out-of-band requests; handing out buffers instead of copying, errors while copying and the externalising of rights are not modelled.
- SockReceive.Socket.ReceiveAll: ends where the call would wait, since what arrives meanwhile is unknown; MSG_WAITALL, and clearing a pending error once it is reported, are not modelled.
- ListenQueue.Listener.Free: whether a protocol control block or an open descriptor still refers to the socket is a parameter; wake-ups and buffers are not modelled.
- BpfFilter.Machine.Do: a buffer length of zero, by which the code takes the packet for an mbuf chain, stands for an empty flat packet in the model.
- BpfFilter.Machine.Filter: packets are flat and shorter than 2^31 octets, and the four octets in front of one are part of the input. Shifts by 32 or more follow arithmetic, where C leaves them undefined. A run that goes astray, of a program that is not in order, has no result.
- BpfBuffer.Descriptor.Read: capture, read and reset are single steps; how a sleep ends is a parameter, and a failing copy to the reader is not modelled.
- Callout.CalloutQueue.Timeout: negative delays are not modelled. That a function is called on time is not claimed: an entry put in the middle delays those after it.
- MbufChains.CopyM: chains are values, so sharing of clusters and their reference counts are not modelled; allocation succeeds. Splitting a chain and copying from device memory are left out.
- RouteMessages.CopyBack: allocation succeeds.
- RouteMessages.Xaddrs: gives the places of the addresses; that an address at the end of a malformed message may be said to go beyond it is left to the reader, as in the code.
- System calls, threads, stream pipes, Ethernet, ARP, loopback and IGMP, the quad logic and shift routines and the string helpers: input and output, or easy.
