# OpenVPN 2.2.1 data channel and tables, in Dafny

This project models the parts of OpenVPN 2.2.1 that hold its state between packets, and
proves what they are for.  `dafny verify dfyconfig.toml` checks it.

- **Fragmentation** (`fragment_*.dfy`, `buffers.dfy`, `integers.dfy`, `bits.dfy`).  A
  datagram that is too large is cut into at most 32 fragments with a packed 32-bit
  header.  The receiver keeps a window of 25 slots indexed by 8-bit ids.  Datagrams are
  given unbounded numbers whose value modulo 256 is the id, and the window is proved to
  behave as a map over those numbers.  Sender, network and receiver form a state machine
  in which packets may be lost, repeated and reordered.
- **Frame arithmetic** (`frame.dfy`): why the buffers are large enough.
- **Routing** (`mroute.dfy`, `routing.dfy`, `routing_runs.dfy`, `routing_history.dfy`,
  `routing_wrap.dfy`, `multi.dfy`, `hash_table.dfy`, `hash_bucket.dfy`,
  `hash_iterator.dfy`, `hash_walk.dfy`, `reaper.dfy`, `reap_rounds.dfy`).  The server
  keeps host routes, prefix routes and cached results of prefix searches in one hash
  table, and removes stale ones a few buckets at a time.  `Routing.Server` is the abstract state, and the
  class `Multi.MultiContext` is proved equal to it on the hash table.
- **Queues**: the ring of shared packets (`mbuf.dfy`, `mbuf_runs.dfy`), the linked list
  of output (`buffer_list.dfy`) and the line splitter (`command_line.dfy`).
- **Static key files** (`key_file_parser.dfy`, `key_file_printer.dfy`, `key_file.dfy`,
  `key_file_errors.dfy`), **DHCP options** (`dhcp.dfy`, `dhcp_options.dfy`) and **coarse
  timers** (`timers.dfy`, `timer_runs.dfy`, `timer_history.dfy`, `timer_context.dfy`).

Where the source changes structs in place there is a class or a method over arrays whose
contract equals a function on values; the theorems are about those functions, and say
what they compute in terms of the input, the bytes on the wire or the history of a run.  An ASSERT
of the source is a Dafny `assert` or a bound that is proved.  `msg (M_FATAL)` and failed
ASSERTs that can happen are results (`Fatal`, `ok == false`).

Results that differ from what one might expect of the code:

- Reassembly is safe only while arriving datagrams can be told apart by eight bits.
  `FragmentWindow.Distinguishable` is the exact condition for one lookup, and 231 the
  largest distance for which it always holds.
- The cached route lookup is right unless the 32-bit generation has come round since a
  live route was cached (`Routing.NoWrap`).  Fewer than 2^32 iroute changes within any
  ttl seconds rule that out (`RoutingWrap.Calm`), and a run without that limit gets there.
- `mbuf_add_item` ends the program exactly when the ring is full of items of clients
  that have gone.
- A lookup during a walk of a hash table can make the walk skip an element or return some
  of them twice.
- `buffer_list_aggregate` loses an entry of `BUF_SIZE_MAX` bytes or more, which a limit
  of that size or more can produce; the program uses 1024.
- `event_timeout_trigger` returns false for a retry, against its own documentation.
- The lazy check is later than an eager one when a retry is withdrawn before it has run
  out, which the ping timer allows, and after the route timer was armed inside a pass.
- `format_hex_ex` with a limit overwrites the end of a text that just fits.
- The test for spurious bits in the header of an unfragmented packet sees six of the
  eight bits of the sequence id and nothing of the fragment id.

Inputs from outside are parameters: the clock, the verdict of the route quota and of the
learn-address script, the bytes a socket accepts, the key bytes of a new key file.

## Model

| member | source | states |
|---|---|---|
| FragmentRuns.DeliversOnlyWhatWasSent | vpn/openvpn-2.2.1/fragment.c:128-240 | over every run of arriving fragments, whole packets and expiries, with any drops, duplicates and reordering, every buffer delivered is byte for byte the datagram the last arriving fragment belongs to; the premise is that each arriving number is distinguishable from those in the window |
| FragmentRuns.ReassemblesInAnyOrder | vpn/openvpn-2.2.1/fragment.c:194-222 | the fragments of a datagram may come in any order with duplicates amid other traffic: nothing is delivered before all have come, then exactly the original bytes |
| FragmentRuns.ReassemblesAlone | vpn/openvpn-2.2.1/fragment.c:194-222 | a receiver just set up that gets the fragments of one datagram in any order with any duplicates delivers nothing while one is missing, and exactly the datagram with the one that completes the set |
| FragmentRuns.RunRefines | vpn/openvpn-2.2.1/fragment.c:168-222 | the 25 reused slots with 8-bit ids give the same outcome at every step as an unbounded map from datagram numbers to the fragments received |
| FragmentMix.IndistinguishableMix | vpn/openvpn-2.2.1/fragment.c:56-76 | the premise is needed for every number: whenever n cannot be told apart, a window that holds all but one fragment of the datagram n is taken for is completed by a fragment of n, and the mix of the two is delivered |
| FragmentMix.TwoAreJoined | vpn/openvpn-2.2.1/fragment.c:56-76 | and with nothing there before: for every head and every n that cannot be told apart, the first fragment of n and the last one of the datagram it is taken for are delivered as one |
| FragmentRuns.CollectsWhileIncomplete | vpn/openvpn-2.2.1/fragment.c:199-210 | while a datagram is incomplete none of its fragments delivers anything and every one that came is remembered |
| FragmentProtocol.NextKeepsInv | vpn/openvpn-2.2.1/fragment.c:299-381 | every step of sender, network and receiver keeps the protocol invariant: what is on the wire is a genuine fragment or packet, the receiver simulates the abstract collection, all delivered was submitted |
| FragmentProtocol.NothingForged | vpn/openvpn-2.2.1/fragment.c:128-240 | in every behaviour of sender, lossy network and receiver, each delivered buffer is one that was submitted |
| FragmentDelivery.SubmittedIsOnItsWay | vpn/openvpn-2.2.1/fragment.c:299-345 | in every behaviour, a datagram handed over is dropped exactly when 32 fragments of the payload size, rounded down to a multiple of four, would not hold it; otherwise it is on the wire whole or its fragments begin to go out |
| FragmentDelivery.FittingIsSentWhole | vpn/openvpn-2.2.1/fragment.c:299-345 | a datagram that fits leaves the sender as it was and goes out as one packet, from which every receiver delivers it without touching its window |
| FragmentDelivery.NothingIsSentForNothing | vpn/openvpn-2.2.1/fragment.c:299-304 | an empty datagram sends nothing and leaves the sender as it was |
| FragmentDelivery.EverythingGoesOut | vpn/openvpn-2.2.1/fragment.c:299-381 | in every behaviour every fragment of every datagram cut up is on the wire, unless it is of the current one and still to be sent |
| FragmentDelivery.DeliveredWhenAllArrived | vpn/openvpn-2.2.1/fragment.c:128-240 | in every behaviour, once the receiver has nothing of a datagram that fits its buffers, and fragments of it arrive undisturbed in any order with any duplicates, the one that completes it delivers it byte for byte |
| FragmentDelivery.CollectedSoFar | vpn/openvpn-2.2.1/fragment.c:194-222 | until then it has collected exactly those that arrived |
| FragmentDelivery.WholeArrivalDelivers | vpn/openvpn-2.2.1/fragment.c:152-167 | in every behaviour a datagram sent whole is delivered whenever its packet arrives |
| FragmentErrors.UnfragmentedByBytes | vpn/openvpn-2.2.1/fragment.c:133-167 | for every packet of any bytes that is empty, too short, of the unused type or not fragmented: exactly when it is rejected, what is delivered otherwise, and that the window is not touched |
| FragmentErrors.OddFragmentIsRejected | vpn/openvpn-2.2.1/fragment.c:168-191 | a fragment that is not the last and no multiple of four bytes long is rejected after the lookup of its id |
| FragmentErrors.OtherSizeStartsOver | vpn/openvpn-2.2.1/fragment.c:193-200 | a fragment of another size than its slot has starts the slot over, as if it were unused |
| FragmentErrors.ForgottenAfterTenSeconds | vpn/openvpn-2.2.1/fragment.c:383-396 | the expiry pass forgets exactly the slots to which nothing was added for ten seconds |
| FragmentReassembly.StepRefines | vpn/openvpn-2.2.1/fragment.c:128-240 | one call of fragment_incoming, or one expiry pass, matches one step of the abstract collection |
| FragmentReassembly.PacketIsRead | vpn/openvpn-2.2.1/fragment.c:133-171 | a fragment off the wire is joined, under the ids, type and size its sender gave it, to the slot looked up for its datagram |
| FragmentReassembly.WholeIsRead | vpn/openvpn-2.2.1/fragment.c:144-167 | an unfragmented packet is passed on unchanged and leaves the window alone |
| FragmentReassembly.JoinSimulates | vpn/openvpn-2.2.1/fragment.c:194-222 | joining a fragment to its slot records exactly that fragment, and delivers the datagram if it was the last one missing |
| FragmentSplit.MapBitsAre | vpn/openvpn-2.2.1/fragment.h:45-52 | a fragment puts its own bit into the received map, and the last fragment also all bits above it |
| FragmentSplit.JoinRecords | vpn/openvpn-2.2.1/fragment.c:194-210 | a genuine fragment is recorded if it fits the buffer, and the datagram is delivered, byte for byte, exactly when no fragment is missing; one that does not fit changes nothing that was recorded |
| FragmentSplit.CompleteIff | vpn/openvpn-2.2.1/fragment.c:207-213 | the map is all ones exactly when every fragment of the datagram has come |
| FragmentSplit.WholeContent | vpn/openvpn-2.2.1/fragment.c:199-217 | a slot that has recorded every fragment holds the datagram: same length, same bytes |
| FragmentWindow.LookupRefinesMap | vpn/openvpn-2.2.1/fragment.c:56-76 | the window is a map over the head and the 24 numbers before it: numbers that stay keep slot and content, a number that is new finds its slot undefined |
| FragmentWindow.SlotsAreDistinct | vpn/openvpn-2.2.1/fragment.c:56-76 | two numbers in the window have the same slot exactly when they are equal |
| FragmentWindow.ClassifiedCorrectly | vpn/openvpn-2.2.1/integer.h:75-82 | the circular difference of two ids is taken for the true distance exactly when the numbers are distinguishable |
| FragmentWindow.NearIsDistinguishable | vpn/openvpn-2.2.1/fragment.c:56-76 | numbers at most 231 apart are distinguishable |
| FragmentWindow.DistinguishableBoundIsTight | vpn/openvpn-2.2.1/fragment.c:56-76 | numbers 232 apart, either way, are not |
| FragmentWindow.SlideKeeps | vpn/openvpn-2.2.1/fragment.c:64-72 | sliding the head moves one number at a time, keeps the slots of numbers that stay and clears the slot of every new one |
| Integers.ShortestPath | vpn/openvpn-2.2.1/integer.h:69-82 | the circular difference differs from the true one by a whole number of turns and is at most half a turn long |
| Integers.ModuloAdd | vpn/openvpn-2.2.1/integer.h:84-100 | the result is in range and is the sum, give or take one turn |
| FragmentSize.SameCount | vpn/openvpn-2.2.1/fragment.c:284-296 | for every length and limit >= 4 the fragment size is a positive multiple of 4, at most the aligned limit, gives the same number of fragments as the limit, and passes the 32-fragment check exactly when the limit does |
| FragmentSize.LastFragmentIsSimilar | vpn/openvpn-2.2.1/fragment.c:279-296 | the last fragment is at most 7*div+3 bytes shorter than the others (div whole aligned fragments), or at least three quarters of the aligned limit |
| FragmentHeader.HeaderRoundTrip | vpn/openvpn-2.2.1/fragment.c:243-277 | the receiver's shifts and masks return the type, 8-bit sequence id, 5-bit fragment id and 14-bit size that were packed into the header, through network byte order |
| FragmentHeader.SpuriousTestSeesSixBits | vpn/openvpn-2.2.1/fragment.c:157-166 | the test for spurious bits of an unfragmented packet uses the masks without their shifts: it sees only the low six bits of the sequence id, and nothing of the fragment id |
| FragmentSend.DrainsCompletely | vpn/openvpn-2.2.1/fragment.c:348-381 | draining a datagram sends exactly ceil(length/size) <= 32 packets with ids 0, 1, 2, ..., only the final one marked last, whose payloads concatenate to the datagram |
| FragmentSend.OutgoingStarts | vpn/openvpn-2.2.1/fragment.c:299-345 | a datagram over the limit is dropped exactly when 32 aligned fragments cannot hold it, else it takes the next sequence id and fragment 0 goes out at once |
| FragmentSend.PacketsFit | vpn/openvpn-2.2.1/fragment.c:299-381 | no packet of a datagram is longer than the payload size and the four-byte header, the first and every later one |
| FragmentMasters.MtuIsKept | vpn/openvpn-2.2.1/mtu.h:160-160 | so everything sent respects the dynamic MTU of the frame |
| FragmentMasters.Fragment.Join | vpn/openvpn-2.2.1/fragment.c:194-222 | the struct update of one slot equals the function on values; overflow of the assembly buffer is the only error |
| FragmentMasters.FragmentList.GetBuf | vpn/openvpn-2.2.1/fragment.c:56-76 | the update of window head, index and slots in place equals the lookup on values |
| FragmentMasters.FragmentList.TtlReap | vpn/openvpn-2.2.1/fragment.c:383-396 | the slots whose last fragment is FRAG_TTL_SEC old or older are forgotten, no others |
| FragmentMasters.FragmentMaster.PrependFlags | vpn/openvpn-2.2.1/fragment.c:243-277 | four header bytes in network order are put in front of the buffer; the ASSERT on the prepend holds |
| FragmentMasters.FragmentMaster.ReadyToSend | vpn/openvpn-2.2.1/fragment.c:348-381 | one fragment goes out as the sender function says; the ASSERTs on buf_init, buf_copy_n and on the emptied buffer hold |
| FragmentMasters.FragmentMaster.Outgoing | vpn/openvpn-2.2.1/fragment.c:299-345 | taking a datagram equals the sender function; the ASSERTs on buf_init and buf_copy hold for every payload that fits the frame |
| FragmentMasters.FragmentMaster.Incoming | vpn/openvpn-2.2.1/fragment.c:128-240 | receiving a packet equals the receiver function, its error branches included; the ASSERT on buf_init holds |
| Frames.BuffersSuffice | vpn/openvpn-2.2.1/mtu.h:145-188 | for every finished frame a buffer of BUF_SIZE has room behind the headroom for any payload and anything read from the link, and before it for the fragment header |
| Frames.HeadroomAligns | vpn/openvpn-2.2.1/mtu.h:243-250 | the headroom plus the adjustment asked for is a multiple of PAYLOAD_ALIGN, and it is the least such one not below the base |
| Frames.Frame.Finalize | vpn/openvpn-2.2.1/mtu.c:49-77 | fails exactly when the tun MTU is below 100, else leaves a usable frame with the dynamic MTU at link_mtu |
| Frames.Frame.SetMtuDynamic | vpn/openvpn-2.2.1/mtu.c:82-109 | clamps between the smallest packet and link_mtu, never raises with the upper-bound flag, keeps the frame usable |
| Frames.Frame.SubtractExtra | vpn/openvpn-2.2.1/mtu.c:116-121 | moves bytes from extra_frame to extra_tun without changing the buffer size or any headroom |
| Buffers.Buffer.Init | vpn/openvpn-2.2.1/buffer.h:215-223 | succeeds exactly when the offset lies within the capacity, and then leaves an empty buffer there |
| Buffers.Buffer.Write | vpn/openvpn-2.2.1/buffer.h:473-481 | appends exactly when the bytes fit and are fewer than BUF_SIZE_MAX, else changes nothing |
| Buffers.Buffer.WritePrepend | vpn/openvpn-2.2.1/buffer.h:483-491 | puts bytes in front exactly when there is headroom for them |
| Buffers.Buffer.Read | vpn/openvpn-2.2.1/buffer.h:461-471 | takes the first bytes exactly when there are as many |
| Buffers.Buffer.Copy | vpn/openvpn-2.2.1/buffer.h:514-518 | appends the content of another buffer, which is left alone |
| Buffers.Buffer.CopyN | vpn/openvpn-2.2.1/buffer.h:520-527 | moves the first n bytes from one buffer to the end of another; if they do not fit there the source has lost them all the same |
| Buffers.Buffer.CopyRange | vpn/openvpn-2.2.1/buffer.h:529-546 | overwrites at an index with a part of another buffer, extending the length if need be, exactly when the part exists and there is room |
| RoutingRuns.CacheAgreesInEveryRun | vpn/openvpn-2.2.1/multi.c:974-1045 | in every state reached by adding and deleting iroutes, learning, looking up, closing, reaping and time passing, in which no live cached route is a full turn of the 32-bit generation old, the cached lookup gives the client of the cache-free search: a live host route that was not cached, else the longest live prefix (section 5.1 of RFC 4632) |
| RoutingHistory.LookupGivesLastLearner | vpn/openvpn-2.2.1/multi.c:973-1045 | in every run, with or without cidr routing, the lookup of an address other than the local one gives the client that learned it for good last, as long as that client is connected |
| RoutingHistory.TapLookupIsHistory | vpn/openvpn-2.2.1/multi.c:973-1045 | in every run without cidr routing the lookup gives exactly the client that learned the address last and is still connected, or else nobody with the table unchanged; the local address is nobody's |
| RoutingHistory.HostOwnerByHistory | vpn/openvpn-2.2.1/multi.c:885-968 | in every run the owner of the live route to an address that is not cached is the last learner by the history |
| RoutingHistory.NobodyIsFound | vpn/openvpn-2.2.1/multi.c:981-993 | the local address is nobody's, and without cidr routing nor is one without a live host route; nothing changes |
| RoutingHistory.LearnExactly | vpn/openvpn-2.2.1/multi.c:885-968 | returns the client whose live route is in the table afterwards; refused or not learnable it changes nothing, otherwise the route is the caller's and no other address is touched |
| RoutingHistory.HostIrouteIsInstalled | vpn/openvpn-2.2.1/multi.c:1085-1112 | after an iroute without netmask the lookup of that host gives its client |
| RoutingHistory.NetworkIrouteIsInstalled | vpn/openvpn-2.2.1/multi.c:1085-1112 | after one with a netmask so does the lookup of a host in the network that has no host route and no longer prefix |
| RoutingHistory.LookupCaches | vpn/openvpn-2.2.1/multi.c:994-1021 | a client found by prefix is cached for the host: the next lookups within ttl seconds give it without a search |
| RoutingHistory.LookupRefreshes | vpn/openvpn-2.2.1/multi.c:988-993 | a lookup keeps a live route live for ttl seconds more |
| RoutingRuns.NextKeepsInv | vpn/openvpn-2.2.1/multi.c:887-1112 | every operation keeps the invariant that a cached route of the current generation, while its owner is connected, gives the result of the prefix search |
| RoutingRuns.PrefixOwnerIsLongest | vpn/openvpn-2.2.1/multi.c:1002-1026 | the search in descending lengths finds the owner of a covering route that no other covering route is longer than, or there is none |
| RoutingRuns.LookupKeepsInv | vpn/openvpn-2.2.1/multi.c:974-1045 | caching the result of a search keeps the invariant |
| RoutingRuns.AddIrouteKeepsInv | vpn/openvpn-2.2.1/multi.c:1086-1112 | adding an iroute keeps the invariant, because the generation changes before the prefix is learned |
| RoutingRuns.CloseKeepsInv | vpn/openvpn-2.2.1/multi.c:494-570 | closing a client keeps the invariant, and the counts of its prefix lengths are large enough that the ASSERT on every decrement holds |
| RoutingRuns.ReapKeepsInv | vpn/openvpn-2.2.1/multi.c:133-164 | reaping keeps the invariant and changes no live route |
| RoutingRuns.ReleasedCounts | vpn/openvpn-2.2.1/mroute.c:407-419 | releasing a client's iroutes lowers each count by the client's share |
| RoutingWrap.CacheAgreesInCalmRun | vpn/openvpn-2.2.1/multi.c:973-1045 | in a run with fewer than 2^32 iroute changes within any ttl seconds the cached lookup gives the client of the cache-free search in every state, without further premise |
| RoutingWrap.CachedWereCurrentInRun | vpn/openvpn-2.2.1/multi.c:886-1045 | in such a run every cached route was of the current generation when it was last referred to |
| RoutingWrap.WrapIsReached | vpn/openvpn-2.2.1/multi.c:915-923 | the program can reach the wrap: a run of iroutes and one lookup at whose end the lookup gives a client that the cache-free search does not |
| RoutingWrap.SomeHostIsHosted | vpn/openvpn-2.2.1/multi.c:1051-1079 | such a run exists for 10.1.2.3 in 10.0.0.0/8 |
| RoutingRuns.CachedRouteHidesHostRoute | vpn/openvpn-2.2.1/multi.c:903-910 | learning a host route for good leaves a live cached route of the same client in its place |
| Routing.LookupAgrees | vpn/openvpn-2.2.1/multi.c:974-1045 | the cached lookup equals the cache-free search and gives a connected client, so the ASSERT at its end holds |
| Routing.SearchFindsLongest | vpn/openvpn-2.2.1/multi.c:1002-1026 | searching only the lengths in use finds the longest live prefix of all lengths |
| Mroute.LengthsAreExact | vpn/openvpn-2.2.1/mroute.c:367-392 | the index is the strictly descending list of exactly the lengths with a positive count |
| Mroute.MrouteHelper.Regenerate | vpn/openvpn-2.2.1/mroute.c:367-392 | rebuilds the index from the counts |
| Mroute.MrouteHelper.AddIroute | vpn/openvpn-2.2.1/mroute.c:394-405 | counts the length, bumps the 32-bit generation, and keeps the index exact although it is rebuilt only when a count becomes one |
| Mroute.MrouteHelper.DelIroute | vpn/openvpn-2.2.1/mroute.c:407-419 | the reverse, with the index rebuilt only when a count becomes zero |
| Mroute.MaskFindsNetwork | vpn/openvpn-2.2.1/mroute.c:256-263 | masking an address to n bits gives a network exactly when the address agrees with it on its first n bits |
| Mroute.MaskIsNetwork | vpn/openvpn-2.2.1/mroute.c:256-263 | a masked address has no host bits |
| Mroute.EqualAddressesHashAlike | vpn/openvpn-2.2.1/mroute.h:161-184 | two addresses are equal exactly when the bytes read by the hash function are |
| Mroute.LearnableAddress | vpn/openvpn-2.2.1/mroute.c:61-77 | the loop accepts exactly the addresses that are neither all zeros nor all ones nor an Ethernet multicast address |
| Mroute.LearnableExactly | vpn/openvpn-2.2.1/mroute.c:61-77 | said of the bytes: neither zeros nor ones, nor an Ethernet address whose first byte is odd |
| Multi.MultiContext.LearnAddr | vpn/openvpn-2.2.1/multi.c:886-968 | on the hash table: replaces or adds the route exactly as the abstract server does, and returns the owner |
| Multi.MultiContext.GetInstanceByVirtualAddr | vpn/openvpn-2.2.1/multi.c:973-1045 | host route first, then each length in use, caching what is found: same client and same state as the abstract lookup; in an invariant state that is the client of the cache-free search, and it is connected, as the final ASSERT says |
| Multi.MultiContext.AddIroutes | vpn/openvpn-2.2.1/multi.c:1085-1112 | the loop over a client's iroutes performs the abstract steps in order, and registers exactly the prefix lengths of the list |
| Multi.RegisteredInRun | vpn/openvpn-2.2.1/multi.c:427-437 | in every run a client that has not closed has registered exactly the lengths of the iroutes added for it, which is what closing it releases |
| Multi.IroutesAreRegistered | vpn/openvpn-2.2.1/multi.c:1085-1112 | adding a list registers its prefix lengths in order |
| Multi.OthersKeepRegistered | vpn/openvpn-2.2.1/multi.c:427-437 | no other action changes what a client has registered |
| Multi.DelIroutes | vpn/openvpn-2.2.1/multi.c:427-437 | the loop releases all of a client's prefix lengths, each while its count is positive |
| Multi.MultiContext.CloseInstance | vpn/openvpn-2.2.1/multi.c:494-570 | the client is halted, its lengths are released and the generation moves on by their number |
| Multi.MultiContext.ReapRange | vpn/openvpn-2.2.1/multi.c:133-164 | removes exactly the routes in a range of buckets that are not defined |
| Multi.MultiContext.ReapProcess | vpn/openvpn-2.2.1/multi.c:183-192 | reaps the next buckets, from the start again after the end of the table |
| Multi.StaleIsReaped | vpn/openvpn-2.2.1/multi.h:289-303 | the test on a stored 32-bit generation removes exactly the routes that are not live |
| Reapers.EveryBucketOnce | vpn/openvpn-2.2.1/multi.c:183-192 | wherever the reaper stands, ceil(n/p) consecutive passes visit every bucket exactly once |
| ReapRounds.RoundLeavesTheLive | vpn/openvpn-2.2.1/multi.c:133-192 | after ceil(n/p) consecutive passes from any place the reaper can stand, exactly the routes that were live are left, unchanged |
| Reapers.PassKeepsPlace | vpn/openvpn-2.2.1/multi.c:183-192 | a pass leaves the reaper at a multiple of the pass size, at most one round on |
| HashTables.HashTable.Add | vpn/openvpn-2.2.1/list.c:139-165 | the table refines a finite map: a new key is added, an old one replaced only if asked, and the result says which |
| HashTables.HashTable.LookupFast | vpn/openvpn-2.2.1/list.c:79-108 | finds the value of a key; moving the hit to the front of its chain changes no mapping |
| HashTables.HashTable.Lookup | vpn/openvpn-2.2.1/list.h:148-161 | finds the value of a key, or none |
| HashTables.HashTable.Remove | vpn/openvpn-2.2.1/list.h:182-193 | removes a key, and n_elements stays the size of the map |
| HashTables.HashTable.AddFast | vpn/openvpn-2.2.1/list.h:163-180 | adds a key that is not there yet |
| HashTables.HashTable.constructor | vpn/openvpn-2.2.1/list.c:34-57 | an empty table with at least the number of buckets asked for, a power of two |
| HashBuckets.HashBucket.LookupFast | vpn/openvpn-2.2.1/list.c:79-108 | on linked nodes: finds the first element with the key, and relinks a hit behind the first one to the front |
| HashBuckets.HashBucket.RemoveFast | vpn/openvpn-2.2.1/list.c:110-137 | on linked nodes: unlinks the first element with the key, at the head or behind its predecessor |
| HashBuckets.HashBucket.RemoveMarked | vpn/openvpn-2.2.1/list.c:182-207 | on linked nodes: leaves exactly the unmarked elements, in order, and counts the others |
| HashBuckets.HashBucket.AddFast | vpn/openvpn-2.2.1/list.h:163-180 | on linked nodes: puts the new element at the head |
| HashBuckets.PositionInTable | vpn/openvpn-2.2.1/list.c:79-137 | in a chain of a table the pointer walk stops exactly at the entry of the key, so relinking keeps the map and unlinking removes the key from it |
| HashTables.FrontRepresents | vpn/openvpn-2.2.1/list.c:94-100 | a chain with one element moved to its front holds the same part of the map |
| HashTables.PushRepresents | vpn/openvpn-2.2.1/list.h:163-180 | adding a key changes the chain of its own bucket and no other |
| HashTables.RemoveRepresents | vpn/openvpn-2.2.1/list.c:121-132 | so does removing one |
| HashIterators.HashIterator.Next | vpn/openvpn-2.2.1/list.c:285-315 | returns an element of the range that was not returned before, or none when every one has been |
| HashWalks.LookupKeepsWalkExactly | vpn/openvpn-2.2.1/list.c:79-108 | a lookup between two calls of the iterator leaves the elements still to be returned as they are exactly when it finds one that was returned already or the first of its chain; a later one is then skipped, and if it finds the next one the chain is returned from its start again |
| HashWalks.Lookup | vpn/openvpn-2.2.1/list.c:79-108 | on the table of a walk, with marked elements: gives the value of the key unless it is marked, and in the harmless cases keeps the walk valid, the elements still to be returned and the element returned last |
| HashIterators.HashIterator.DeleteElement | vpn/openvpn-2.2.1/list.c:317-323 | marks the element returned last |
| HashIterators.HashIterator.RemoveMarked | vpn/openvpn-2.2.1/list.c:182-207 | unlinks exactly the marked elements of a chain and lowers n_elements by their number |
| HashIterators.HashIterator.Free | vpn/openvpn-2.2.1/list.c:279-283 | after the walk exactly the deleted elements are gone |
| HashIterators.RemoveByValue | vpn/openvpn-2.2.1/list.c:167-180 | exactly the entries with the value are gone |
| HashIterators.WalkedOneMore | vpn/openvpn-2.2.1/list.c:285-315 | the next element of a chain was not returned before |
| MbufRuns.FirstInFirstOut | vpn/openvpn-2.2.1/mbuf.c:86-125 | over every run, the items of all clients that are not dereferenced leave (taken, or dropped to make room) in the one order in which they were added, and those still queued follow in that order |
| Mbufs.MbufSet.AddItem | vpn/openvpn-2.2.1/mbuf.c:86-104 | queues an item and counts the reference; a full ring loses its first live item; fails exactly when it is full without a live item |
| Mbufs.MbufSet.ExtractItem | vpn/openvpn-2.2.1/mbuf.c:106-125 | takes out the first live item and all before it, and hands its reference to the caller |
| Mbufs.MbufSet.DereferenceInstance | vpn/openvpn-2.2.1/mbuf.c:147-165 | the items of a client go, all others stay in order, and exactly its references are given up |
| Mbufs.MbufSet.FreeBuf | vpn/openvpn-2.2.1/mbuf.c:73-84 | a reference is given up and the buffer is freed exactly when it was the last |
| Mbufs.MbufSet.AllocBuf | vpn/openvpn-2.2.1/mbuf.c:62-71 | a new buffer has one holder, the caller |
| Mbufs.MbufSet.Peek | vpn/openvpn-2.2.1/mbuf.c:127-145 | the client of the first live item |
| Mbufs.MbufSet.Free | vpn/openvpn-2.2.1/mbuf.c:46-60 | the queue gives up all its references |
| Mbufs.MbufSet.constructor | vpn/openvpn-2.2.1/mbuf.c:36-44 | an empty ring with a power of two of slots |
| Mbufs.ReleasedIsCounted | vpn/openvpn-2.2.1/mbuf.c:73-84 | refcounts stay the number of holders, queue slots and others together, and no freed buffer is ever held |
| Mbufs.IndexWraps | vpn/openvpn-2.2.1/mbuf.h:42-42 | the masked index goes round the ring |
| Mbufs.RestIsTail | vpn/openvpn-2.2.1/mbuf.c:106-125 | extraction removes exactly the first of the live items |
| Mbufs.DereferencedLive | vpn/openvpn-2.2.1/mbuf.c:147-165 | emptying slots in place removes exactly one client's items from the live ones |
| MbufRuns.AbortsExactly | vpn/openvpn-2.2.1/mbuf.c:86-104 | over every run, the ASSERT for a dropped packet fails exactly when the ring is full and the clients of all packets in it, the last ones added, have gone since each was added |
| MbufRuns.QueueIsLastAdded | vpn/openvpn-2.2.1/mbuf.c:86-165 | over every run, the queue holds in order the packets added last, each of them emptied if and only if its client has gone since |
| MbufRuns.GoneClientFillsRing | vpn/openvpn-2.2.1/mbuf.c:86-104 | a run from the empty queue in which that ASSERT then fails: one client fills the ring and goes |
| BufferLists.StreamIsConserved | vpn/openvpn-2.2.1/buffer.c:938-1037 | over every run of push, aggregate and advance with limits below BUF_SIZE_MAX, the bytes advanced past followed by the bytes queued are the bytes pushed |
| BufferLists.AggregateKeepsStream | vpn/openvpn-2.2.1/buffer.c:974-1010 | joining entries leaves the concatenation unchanged exactly when no joined entry has BUF_SIZE_MAX bytes or more |
| BufferLists.LargeLimitLosesBytes | vpn/openvpn-2.2.1/buffer.c:974-1010 | with a larger limit two joins in a row can lose the first entry |
| BufferLists.ShortLimitKeepsStream | vpn/openvpn-2.2.1/buffer.c:974-1010 | with a limit below BUF_SIZE_MAX nothing is lost, because only a short first entry is ever joined again |
| BufferLists.BufferList.PushData | vpn/openvpn-2.2.1/buffer.c:938-962 | the entry goes to the end and becomes the tail, unless the counted size has reached the maximum |
| BufferLists.BufferList.Aggregate | vpn/openvpn-2.2.1/buffer.c:974-1010 | the first entries become one node at the head, the tail is still the last node, and size is not lowered |
| BufferLists.BufferList.CountEntries | vpn/openvpn-2.2.1/buffer.c:977-986 | the first loop counts the entries to join and their bytes |
| BufferLists.BufferList.Pop | vpn/openvpn-2.2.1/buffer.c:1013-1025 | the first entry goes; an emptied list has no tail |
| BufferLists.BufferList.Advance | vpn/openvpn-2.2.1/buffer.c:1028-1037 | goes forward in the first entry, and drops it when nothing of it is left |
| BufferLists.BufferList.ManWrite | vpn/openvpn-2.2.1/manage.c:1801-1830 | sends as much as the socket takes of the first 1024 bytes of the stream, nothing of an empty one, and what is sent comes off its front |
| BufferLists.BufferList.WriteAll | vpn/openvpn-2.2.1/manage.c:1801-1830 | called whenever the socket takes something, it empties the queue after at most as many calls as there are bytes |
| BufferLists.AggregateGathers | vpn/openvpn-2.2.1/buffer.c:973-1015 | entries are joined to the first one until there are more than max bytes or no more entries, and no further |
| CommandLines.ChunksDoNotMatter | vpn/openvpn-2.2.1/manage.c:1740-1774 | however the input is cut into chunks, as long as what is pending fits the buffer, the lines read are those of the whole filtered input |
| CommandLines.LinesAreTheText | vpn/openvpn-2.2.1/manage.c:2984-2997 | the lines with their newlines, followed by the rest, are the text |
| CommandLines.LinesHoldNoNewline | vpn/openvpn-2.2.1/manage.c:2984-2997 | no line and no rest holds a newline |
| CommandLines.AddedWhole | vpn/openvpn-2.2.1/manage.c:2970-2981 | all printable bytes and newlines are added exactly as long as they fit; else what is pending is thrown away |
| CommandLines.AddedExactly | vpn/openvpn-2.2.1/manage.c:2970-2981 | what is pending is what has come since the last time one byte more than fits came: all is dropped then, that byte included |
| CommandLines.FilterIsExact | vpn/openvpn-2.2.1/manage.c:2970-2981 | of the input exactly the newlines and the printable characters of ASCII are kept, in order |
| CommandLines.CommandLine.Add | vpn/openvpn-2.2.1/manage.c:2970-2981 | filters and appends byte by byte, clearing the buffer on overflow, whatever the buffer holds |
| CommandLines.CommandLine.Get | vpn/openvpn-2.2.1/manage.c:2984-2997 | returns the text before the first newline, ended by a null, and keeps what follows as the residual; without a newline nothing changes |
| CommandLines.CommandLine.Next | vpn/openvpn-2.2.1/manage.c:3000-3005 | the residual becomes what is pending and is empty again |
| CommandLines.CommandLine.ReadLines | vpn/openvpn-2.2.1/manage.c:1740-1774 | the loop of man_read returns all complete lines and leaves the rest pending |
| CommandLines.FindDelimiter | vpn/openvpn-2.2.1/buffer.c:622-635 | the length up to and with the first delimiter, or -1 |
| CommandLines.CopyExcess | vpn/openvpn-2.2.1/buffer.h:548-568 | truncates the source and appends the excess to the destination |
| CommandLines.NullTerminate | vpn/openvpn-2.2.1/buffer.c:400-410 | ends the text with a null, in the place of its last byte if there is no room |
| CommandLines.Chomp | vpn/openvpn-2.2.1/buffer.c:401-434 | strips trailing line ends and nulls, and ends the text with a null |
| CommandLines.ChompedExactly | vpn/openvpn-2.2.1/buffer.c:416-434 | exactly the returns, newlines and nulls a text ends with are taken off |
| CommandLines.TerminatedExactly | vpn/openvpn-2.2.1/buffer.c:400-410 | a text with room for a byte ends with a null and loses its last byte only if there is no room for one more |
| KeyFiles.RoundTrip | vpn/openvpn-2.2.1/crypto.c:1061-1158 | reading what was written, from a file or inline, succeeds with the same keys, up to two of them, for 1 to 7 keys written |
| KeyFiles.ReadKeyFile | vpn/openvpn-2.2.1/crypto.c:998-1158 | the character loop with its array updates equals the state machine on values; at most two keys |
| KeyFiles.Parse | vpn/openvpn-2.2.1/crypto.c:1062-1142 | hb_index is 0 or 1 before a digit is stored and at most 256 bytes are written, on every input |
| KeyFiles.HexReadsBack | vpn/openvpn-2.2.1/crypto.c:1113-1129 | reading pairs of digits gives back the bytes printed, as far as there is room |
| KeyFileParser.KeyFileIsRead | vpn/openvpn-2.2.1/crypto.c:1062-1142 | any lines that are not the header, the header line, hex digits and white space, and the footer are read as the bytes of the digits, whatever follows |
| KeyFileParser.ParserInvariant | vpn/openvpn-2.2.1/crypto.c:1062-1142 | on every input without fatal character the state never goes back, what was read stays, at most one digit is pending and at most 256 bytes are written |
| KeyFileParser.BodyIsRead | vpn/openvpn-2.2.1/crypto.c:1110-1135 | between header and footer every digit counts and white space does not, until the key is complete |
| KeyFileParser.PreambleIsSkipped | vpn/openvpn-2.2.1/crypto.c:1090-1098 | lines that do not match the header leave the parser as it was |
| KeyFileParser.HeaderIsFound | vpn/openvpn-2.2.1/crypto.c:1090-1098 | a line that begins with the header is taken for it |
| KeyFileParser.FooterIsFound | vpn/openvpn-2.2.1/crypto.c:1082-1108 | a footer at the start of a line ends the parse, from every state after the header |
| KeyFilePrinter.FormatHexEx | vpn/openvpn-2.2.1/buffer.c:363-379 | with no limit on the output nothing is truncated; with a limit the text is cut to it and its end is overwritten by the marker, even where the text just fits |
| KeyFilePrinter.HexFits | vpn/openvpn-2.2.1/buffer.c:367-370 | the buffer allocated has room for the text and two more characters, for every size and line length |
| KeyFilePrinter.WriteKeyFile | vpn/openvpn-2.2.1/crypto.c:1246-1303 | for any number of keys the text is the comment with the number of bits, then the header, the keys and the footer, each part cut to its buffer |
| KeyFilePrinter.SevenKeysFit | vpn/openvpn-2.2.1/crypto.c:1253-1296 | up to seven keys nothing is cut |
| KeyFiles.WrittenIsReadExactly | vpn/openvpn-2.2.1/crypto.c:1061-1158 | a file written with any number of keys can be read again exactly when it holds one to seven |
| KeyFileErrors.NoHeader | vpn/openvpn-2.2.1/crypto.c:1090-1158 | a file without header line gives no key, and is refused when a key is needed |
| KeyFileErrors.NoFooterIsRefused | vpn/openvpn-2.2.1/crypto.c:1138-1158 | a file that ends before the footer is refused for the digits or else the footer that is missing |
| KeyFileErrors.CompleteIsRead | vpn/openvpn-2.2.1/crypto.c:1062-1158 | a complete file gives one key for each 256 digits, at most two, and is refused with fewer |
| KeyFileErrors.NonHexIsFatal | vpn/openvpn-2.2.1/crypto.c:1110-1135 | inside a key any character that is neither hex digit nor white space is fatal, except a dash at the start of a line |
| KeyFileErrors.InlineNeedsFooter | vpn/openvpn-2.2.1/crypto.c:1036-1041 | an inline text of any length is read with its final null, which is fatal inside the key |
| KeyFileErrors.HexByteIs | vpn/openvpn-2.2.1/buffer.c:363-379 | a byte is printed as two lower-case hex digits, the high one first |
| KeyFileErrors.ByteOfIs | vpn/openvpn-2.2.1/crypto.c:1113-1129 | and read from two hex digits of either case |
| KeyFileErrors.HexTextAt | vpn/openvpn-2.2.1/buffer.c:363-379 | where each byte and each separator of the printed text stands |
| Dhcp.DoExtract | vpn/openvpn-2.2.1/dhcp.c:68-110 | the walk in place pads out the router options that fit and returns the first address other than zero |
| DhcpOptions.FirstRouterIsReturned | vpn/openvpn-2.2.1/dhcp.c:68-110 | of every list of options, however it ends, the address returned is the big-endian value in the first router option that has a positive multiple of four bytes and does not begin with four zeros, and zero if there is none |
| DhcpOptions.RoutersBecomePadding | vpn/openvpn-2.2.1/dhcp.c:68-110 | what is left is the same list with padding for the router options, and what follows the list |
| DhcpOptions.FirstTypeIsReturned | vpn/openvpn-2.2.1/dhcp.c:33-66 | the message type is the one byte of the first message type option, and -1 if there is none, it has another length or it is cut off |
| DhcpOptions.ListOfOptions | vpn/openvpn-2.2.1/dhcp.c:33-110 | every sequence of bytes is such a list, followed by the end option, a cut-off option or nothing |
| Dhcp.OnlyRoutersChange | vpn/openvpn-2.2.1/dhcp.c:83-99 | exactly the bytes of router options that fit become padding |
| Dhcp.StrippingKeeps | vpn/openvpn-2.2.1/dhcp.c:33-110 | the message type is the same before and after, and the walk meets the same other options at the same positions (sections 3.1, 3.2, 3.5 and 9.6 of RFC 2132) |
| Dhcp.NothingIsLeft | vpn/openvpn-2.2.1/dhcp.c:68-110 | a second call changes nothing and returns 0 |
| Dhcp.GetMessageType | vpn/openvpn-2.2.1/dhcp.c:33-66 | the loop returns the value of the first message type option, or -1 if it is malformed or missing |
| TimerRuns.LazyEqualsEagerExactly | vpn/openvpn-2.2.1/forward.c:558-582 | in any run, with any retries and any clock, the lazy check fires the same timers in the same checks as looking at every timer each time, exactly when no check is skipped while a timer is due that is not held back by a retry |
| TimerRuns.LazyEqualsEager | vpn/openvpn-2.2.1/forward.c:558-582 | that is so in every run on a clock that does not go back in which no retry is withdrawn before it has run out and no deadline is brought before the next wake-up without reset_coarse_timers |
| TimerHistory.FiresByHistory | vpn/openvpn-2.2.1/interval.c:39-77 | in every run a timer fires in a check exactly when by its history it is armed, is not told to wait, and its interval has passed since it was armed, reset or last fired |
| TimerHistory.LazyFiresByHistory | vpn/openvpn-2.2.1/forward.c:495-582 | so does the lazy check, in the runs in which it agrees with the eager one |
| TimerHistory.PeriodicTimer | vpn/openvpn-2.2.1/interval.c:39-77 | a timer armed once, with no other event of its own, goes on firing, its interval after each check that fired it |
| TimerHistory.SleepsUntilNextDeadline | vpn/openvpn-2.2.1/forward.c:558-582 | the limit a check leaves is exactly the time to the next deadline of any timer as the check has left it, or to the end of the wait it was told; a week if there is none |
| TimerHistory.ChecksWakeUp | vpn/openvpn-2.2.1/forward.c:558-582 | after a check that is made the checks are skipped until then, and one that is skipped changes nothing |
| TimerRuns.ZeroRetriesAreSteady | vpn/openvpn-2.2.1/occ-inline.h:44-66 | with no retries, or retries of zero as the OCC timers have, no retry is ever withdrawn early |
| TimerRuns.LateOnlyByRetry | vpn/openvpn-2.2.1/ping-inline.h:34-57 | with any retries: a timer that is due and does not fire was held back by a retry that has not run out, so it is late by no more than that |
| TimerRuns.NeverSleepsPastDeadline | vpn/openvpn-2.2.1/forward.c:558-582 | the time the main loop may sleep is never past a deadline, except of a timer that was told to wait for as long |
| CoarseTimers.CheckIsPassExactly | vpn/openvpn-2.2.1/forward.c:575-582 | one check fires what a pass over all timers would exactly when, if it is skipped, every due timer is held back; then it leaves the timers as the pass would |
| CoarseTimers.PromptExactly | vpn/openvpn-2.2.1/forward.c:575-582 | all later checks, whenever they come and with whatever retries, fire what a pass would exactly when no deadline lies between now and the wake-up |
| CoarseTimers.ArmedAloneExactly | vpn/openvpn-2.2.1/interval.h:165-171 | arming a timer without reset_coarse_timers keeps that so exactly when the wake-up is not after the new deadline, or has come |
| CoarseTimers.RoutesWaitExactly | vpn/openvpn-2.2.1/forward.c:290-302 | whatever other timers there are, after a check that leaves no deadline before its wake-up, arming the route timer for one second makes no later check miss anything exactly when the pass may sleep for one second at most |
| CoarseTimers.RoutesWaitTooLong | vpn/openvpn-2.2.1/forward.c:290-302 | the route timer armed anew inside a pass, for one second, after the pass has taken its longer interval into account, is late when it is the only timer |
| CoarseTimers.LimitIsLeast | vpn/openvpn-2.2.1/interval.c:66-73 | a pass leaves the least wake-up time, retries included, or the limit it began with |
| CoarseTimers.RetryIsLate | vpn/openvpn-2.2.1/interval.c:60-63 | a due timer with a retry is left as it is, and until the retry has run out it does not fire even if the retry is withdrawn |
| TimerContexts.EventTimeout.Trigger | vpn/openvpn-2.2.1/interval.c:39-77 | fires and rearms a due timer, or leaves it for a retry, and lowers the time limit; with a retry time the result is false, where the comment at interval.h:188-197 says true |
| TimerContexts.EventTimeout.Reset | vpn/openvpn-2.2.1/interval.h:173-178 | a defined timer starts again now, an undefined one is left alone |
| TimerContexts.EventTimeout.Init | vpn/openvpn-2.2.1/interval.h:165-171 | armed from now, with a negative interval taken for zero |
| TimerContexts.EventTimeout.ModifyWakeup | vpn/openvpn-2.2.1/interval.h:180-186 | a defined timer gets the new interval from the same start |
| TimerContexts.TimerContext.ProcessCoarseTimers | vpn/openvpn-2.2.1/forward.c:495-556 | the pass over all timers, each with the retry it is given, fires exactly those due and not held back |
| TimerContexts.TimerContext.CheckCoarseTimers | vpn/openvpn-2.2.1/forward.c:558-582 | the check in place is the check of a run, its time limit included |
| TimerContexts.TimerContext.ArmTimer | vpn/openvpn-2.2.1/init.c:991-1045 | arming a timer, from now or as the first ping from time zero, and resetting the wake-up is the event of a run |

## Left out

- HashTables.HashTable.LookupFast: works on chains that are sequences, one to a bucket. The relinking of `next` pointers is proved for one bucket in `HashBuckets`, whose chain is the same sequence; table and iterator are not built on the linked nodes, so the iterator's pointers are positions.
- The hash function is any function of the key; the Jenkins mixing function is not modelled.
- HashIterators.HashIterator.Next: elements are positions in a sequence. Between its calls the table is changed through the iterator and by the lookups of `HashWalks.Lookup` only; after any other lookup the iterator is not `Valid`, and adding to or removing from the table during a walk is not modelled.
- HashWalks.Lookup: requires that no element marked for deletion and of the same hash value is met, because the compare function would get its key, which is null.
- RoutingRuns.CacheAgreesInEveryRun: has the premise `NoWrap`, because the generation has 32 bits; `RoutingWrap.WrapIsReached` shows that it is needed, and `CacheAgreesInCalmRun` does without it. It does not say which lookups happen to agree although the generation has come round.
- Routes are values in the table, and clients are numbers; the reference counts of clients and the freeing of route structs are not modelled.
- Of closing a client only the routes and the prefix lengths are modelled, not the other tables, the address pool or the scripts.
- TimerRuns.LazyEqualsEager: its premises on retries and on timers armed alone are sufficient; the exact condition is that of `LazyEqualsEagerExactly`. What the timers do when they fire is not modelled, beyond the events of a run, nor is the early return of the pass when a signal was received, after which the main loop ends.
- FragmentProtocol.NothingForged: a datagram is submitted only when the last one has been drained, which is when the program reads the next one from the tunnel.
- Fragment sizes are at most 65532, the largest a 14-bit field of multiples of four can hold.
- Integers are unbounded except where the source's width matters: header fields, 8-bit ids, the 32-bit received map, the 32-bit generation, network masks. Overflow of `int` sizes and of time stamps is not modelled.
- A delivered buffer shares the memory of its slot (`Buffer.Assign`); that its bytes are used before the slot is filled again is not shown.
- The fragment size feedback and the FRAG_TEST packets, which the source does not implement, are left out.
- Halting a management connection in the middle of its lines, and commands spread over `in_extra`, are left out.
- The checksums, the IP and UDP headers around DHCP options, encryption, HMAC, packet ids, compression, sockets, TUN/TAP, TLS, plugins, scripts, logging and `malloc` failure are left out.
- In mroute only IPv4 and Ethernet address kinds with the fields compared and hashed are modelled; extracting addresses from packets would add only easy members.
