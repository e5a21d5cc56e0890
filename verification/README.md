# EdgeMesh in Dafny

A model of three parts of EdgeMesh, and proofs about their behaviour over whole runs.

* **The load balancer** (`pkg/loadbalancer`): service ports with their endpoints, round-robin index and
  session-affinity records, policies with a consistent-hash ring, coalesced service changes and the
  start-up flags.
* **The packet path** (`pkg/util/tunutils`): a circular buffer with mark and recover, an IPv4 frame
  parser and printer (section 3.1 of RFC 791) with its header checksum (section 4.1 of RFC 1071), and the
  loops that reassemble frames from chunks.
* **The tunnel's books** (`pkg/tunnel`): which identity belongs to which node name, and the relays.

`dafny verify dfyconfig.toml` checks the whole project.

## How it is laid out

Each part has specification functions on values, classes and methods in the form of the Go code that are
proved against those functions, and lemmas about the functions over all runs.

| file | content |
|---|---|
| `Bytes.dfy`, `RecycleByteBuffer.dfy`, `BufferRuns.dfy` | byte packing; the circular buffer; its runs against a bounded queue |
| `Checksum.dfy`, `FrameCodec.dfy`, `IPFrame.dfy` | the checksum; frames as bytes; the frame object, parser and printer |
| `Tun.dfy`, `TunStreams.dfy` | the reassembly loops; streams of packets through them |
| `EndpointStrings.dfy`, `Slices.dfy`, `Policies.dfy` | endpoint strings and lists; slice comparison; policies and the ring |
| `Balancing.dfy` | what every event does to one service port |
| `BalancingInvariants.dfy`, `ServedPorts.dfy`, `RuleRuns.dfy` | invariants of a port over runs; which listed ports are served; rules and their panics |
| `Affinity.dfy`, `Rotation.dfy`, `Picks.dfy` | session affinity over runs; fairness and retries; picks by affinity type and policy name |
| `ServiceSync.dfy`, `SettledServices.dfy`, `StartupRace.dfy` | service changes and syncs over runs; the settled service map field by field; the start-up interleavings |
| `PortSync.dfy`, `WholeRuns.dfy`, `StickyTimeout.dfy` | runs of handlers and syncs together; the run theorems over them; which sticky timeout is in force |
| `StateUpdates.dfy`, `LoadBalancer.dfy` | the loops on one port's state; the load balancer object |
| `Multiaddrs.dfy`, `Tunnel.dfy` | addresses and relay maps; the tunnel object and the network of nodes |

## What the model takes as given

* An informer delivers events of an object in order: Add for an object not there, Update and Delete with
  the object last seen. Port names within a service are unique.
* The clock is monotone, and an operation reads it once. Elapsed seconds are counted without
  floating-point rounding.
* A shuffle is some permutation, a random number is some number, and the ring library places a key on
  some member of a non-empty ring, as a function of members and key. A cluster address is its parsed form.
* A stream between two nodes authenticates both identities, and every node runs under the identity derived
  from its own name. IPv4 texts consist of digits and dots.
* The order of a Go map is arbitrary; loops over maps pick the next key arbitrarily.

## What the proofs show about the code

* The checksum is folded once. It is the checksum of RFC 1071 exactly if that fold leaves no carry, and one
  too large otherwise; `ForwardedHeaderCanBeRejected` gives a packet whose forwarded header no receiver accepts.
* `ParseIPFrame` checks none of its accesses to the bytes of a packet. One is out of range, and panics, exactly if
  the announced total length is smaller than the header (`FillExactlyWhen`); `ShortLengthStopsTheLoop` gives such
  bytes.
* The loops read as many bytes at a time as the buffer holds, but the buffer may still hold part of a packet. Then the
  end of the read is lost. Packets come out unharmed exactly if at every read there is room beside the packet under
  way (`Reassembly`); `FullReadAfterPartialPacket` gives a stream for which there is not.
* A bad header makes the loops throw away everything in the buffer, so with malformed input the result can depend on
  how the stream was cut (`BadHeaderDropsFollowers`). It does not exactly if a crash comes first, or the chunks behind
  the one that completes the bad header come to nothing anyway (`CutDoesNotMatterExactlyWhen`).
* `Write` keeps the part that fits. The comment in `bytebuffer.go` says it panics.
* The 20 bytes of `ipframe_test.go` announce a total length of 60, so the parser returns no frame for them.
* An endpoint with a colon in its address (IPv6) never parses back, so it can never be dialled.
* `sliceCompare` overlooks an endpoint that is new and listed twice, so a ring can lack an endpoint
  (`RingCanMissAnEndpoint`); it never has one too many.
* `OnEndpointsAdd` does not drop affinity records. The informer order makes up for it.
* A service that is deleted and created again has no endpoints until the next event of its Endpoints object
  (`ServesExactlyWhen`, `RecreatedServiceIsNotServed`).
* Deleting a rule panics if a port of the service has a balancer state, but no policy: no supported rule came while it
  had a state, or what came was taken since (`RuleDeletePanicsExactlyWhen`, `RuleBeforeEndpointsPanics`). A rule that is
  deleted while a port has no state leaves the policy of the port behind (`PolicyOutlivesRule`).
* The sticky timeout in force is set when a balancer state is created and never after. It is the default of three
  hours if endpoints come before the first sync, as is usual at start-up (`EndpointsFirstKeepDefault`), and a later change
  of the timeout has no effect (`TimeoutChangeIsMissed`).
* Taking the service changes and applying them happen under different locks, so syncs can overtake each other. The
  service map then ends up right exactly if at every port changed by both the older change does not undo the newer
  (`OvertakingExactlyWhen`); `ApplyingOutOfOrderRegresses` gives changes that do. In the order of taking all is well.
* With as many endpoints as dial attempts, a bound client can miss the only endpoint that works
  (`BoundClientCanMissAnEndpoint`).
* A node believes the last message that names another node (`LookupRightExactlyWhen`, `AnyWordIsBelieved`).

## Model

| member | source | states |
|---|---|---|
| Bytes.Uint16ToBytesInverse | pkg/util/tunutils/byteutils.go:5-22 | splitting a 16-bit number undoes joining two bytes |
| Bytes.HighByteFirst | pkg/util/tunutils/byteutils.go:5-22 | the high byte comes first |
| RecycleBuffer.RecycleByteBuffer.constructor | pkg/util/tunutils/recycle_bytebuffer.go:137-145 | a new buffer is an empty queue of the given capacity |
| RecycleBuffer.RecycleByteBuffer.Write | pkg/util/tunutils/recycle_bytebuffer.go:29-62 | the queue grows by exactly the prefix that fits, across the wrap-around, and marked bytes are damaged only where the writes overrun them |
| RecycleBuffer.RecycleByteBuffer.Read | pkg/util/tunutils/recycle_bytebuffer.go:64-101 | moves exactly the front of the queue to the destination and leaves the rest of both alone |
| RecycleBuffer.RecycleByteBuffer.Mark | pkg/util/tunutils/recycle_bytebuffer.go:119-123 | remembers the queue without changing it |
| RecycleBuffer.RecycleByteBuffer.Recover | pkg/util/tunutils/recycle_bytebuffer.go:125-129 | brings back the marked queue except for the bytes overrun since, all of it if the writes fitted the space free at the mark |
| RecycleBuffer.RecycleByteBuffer.Clean | pkg/util/tunutils/recycle_bytebuffer.go:131-135 | empties the queue |
| RecycleBuffer.PokeTracks | pkg/util/tunutils/recycle_bytebuffer.go:41-61 | a circular write behind a marked stretch spares all of it that is not overrun |
| BufferRuns.Run | pkg/util/tunutils/recycle_bytebuffer.go:29-135 | every run of operations reads the bytes and leaves the queue that a bounded queue with a bookmark would; a recovery brings back every marked byte that was not overrun |
| BufferRuns.BytesAreConserved | pkg/util/tunutils/recycle_bytebuffer.go:29-101 | bytes read plus bytes queued are bytes queued before plus bytes accepted, in order |
| BufferRuns.MarkThenRecover | pkg/util/tunutils/recycle_bytebuffer.go:119-129 | after any reads, and writes that fit the space free at the mark, recovering can only find the queue of the mark |
| Checksum.ToCheckSum | pkg/util/tunutils/ipframe.go:293-303 | the loop computes the 32-bit sum, one 16-bit fold and the complement |
| Checksum.TotalIsReceived | pkg/util/tunutils/ipframe.go:296-300 | the sum of the code is the sum of all words of the header as they arrive |
| Checksum.FoldIsResidue | pkg/util/tunutils/ipframe.go:302-302 | folding all carries, as a receiver does, is the sum modulo 65535 |
| Checksum.CheckSumOfSample | pkg/util/tunutils/ipframe.go:293-303 | a header and its checksum |
| Checksum.SingleFold | pkg/util/tunutils/ipframe.go:293-303 | up to 60 bytes the sum does not overflow; the result is the RFC 1071 checksum of the words received exactly if one fold leaves no carry, else one larger |
| Checksum.SealIsAccepted | pkg/util/tunutils/ipframe.go:260-262 | a header with the checksum patched in re-sums to all ones exactly if one fold left no carry |
| FrameCodec.FillExactlyWhen | pkg/util/tunutils/ipframe.go:131-164 | the accesses to the bytes of a packet are all in range exactly if the total length covers the header, and then give the frame |
| FrameCodec.ParseExactly | pkg/util/tunutils/ipframe.go:86-182 | the outcome of the parser by length and header fields, the panic included |
| FrameCodec.ShortLengthCrashes | pkg/util/tunutils/ipframe.go:131-164 | bytes on which the parser panics |
| FrameCodec.SampleParses | pkg/util/tunutils/ipframe.go:113-164 | a packet with an option and a payload, all fields different: each is found in its place |
| FrameCodec.SamplePrints | pkg/util/tunutils/ipframe.go:231-268 | and printed in its place |
| FrameCodec.TestVectorIsIncomplete | pkg/util/tunutils/ipframe_test.go:10-20 | the parser wants more than the bytes of the test |
| FrameCodec.OptionsRoundTrip | pkg/util/tunutils/ipframe.go:151-161 | options are read back from where they were printed |
| FrameCodec.ParseEncoded | pkg/util/tunutils/ipframe.go:86-182 | parsing a printed well-formed frame gives it back with the checksum filled in |
| FrameCodec.RoundTripExactlyWellFormed | pkg/util/tunutils/ipframe.go:86-268 | a frame survives printing and parsing exactly if it is well formed |
| FrameCodec.ReprintChangesOnlyChecksum | pkg/util/tunutils/ipframe.go:231-268 | printing a parsed packet changes bytes 10 and 11 only |
| FrameCodec.ReprintTwice | pkg/util/tunutils/ipframe.go:231-268 | a second parse and print changes nothing |
| FrameCodec.ForwardedHeaderAccepted | pkg/util/tunutils/ipframe.go:260-268 | the header of a forwarded packet is accepted exactly if one fold of its word sum leaves no carry |
| FrameCodec.ForwardedHeaderCanBeRejected | pkg/util/tunutils/ipframe.go:293-303 | a concrete packet that is forwarded with a wrong checksum |
| IPFrames.IPFrame.ToBytes | pkg/util/tunutils/ipframe.go:231-268 | prints the frame as specified and stores the checksum in it, changing nothing else |
| IPFrames.PrintOptions | pkg/util/tunutils/ipframe.go:270-291 | options print in order, four bytes each |
| IPFrames.ReadOptions | pkg/util/tunutils/ipframe.go:151-161 | fills the option table from the header lines beyond the fifth, or panics on the first access out of range |
| IPFrames.FillFrame | pkg/util/tunutils/ipframe.go:134-181 | makes the accesses in order and gives the frame, or panics |
| IPFrames.PeekFour | pkg/util/tunutils/ipframe.go:107-111 | reads the first four bytes and consumes nothing |
| IPFrames.ParseIPFrame | pkg/util/tunutils/ipframe.go:86-182 | all four outcomes, and that only a frame (or the panic) consumes bytes |
| Tun.PumpFrame | pkg/util/tunutils/tun.go:237-249 | one round of the inner loop: wait, clean the buffer, crash, or emit the printed frame |
| Tun.DrainBuffer | pkg/util/tunutils/tun.go:236-252 | the inner loop ends and emits what draining the queue gives |
| Tun.PumpChunk | pkg/util/tunutils/tun.go:235-252 | one chunk written as far as it fits, then drained |
| Tun.PumpAll | pkg/util/tunutils/tun.go:333-366 | the loop over all chunks read |
| TunStreams.DrainIncrementally | pkg/util/tunutils/tun.go:236-252 | draining now and later is draining everything at once, if draining now ends in waiting |
| TunStreams.NothingFollows | pkg/util/tunutils/tun.go:239-244 | once draining meets a bad header or a crash, what follows in the buffer makes no difference |
| TunStreams.CutDoesNotMatterExactlyWhen | pkg/util/tunutils/tun.go:333-366 | on any stream, malformed or not, whose chunks fit: the loop behaves as if all had arrived at once if and only if the cut is harmless |
| TunStreams.UnfittingChunks | pkg/util/tunutils/tun.go:333-366 | a chunk that does not fit loses bytes for good: fewer come out or stay than went in |
| TunStreams.ChunkingIsIrrelevantExactlyWhen | pkg/util/tunutils/tun.go:333-366 | on a clean stream the loop behaves as if all had arrived at once if and only if every chunk fits |
| TunStreams.FitsMeansRoom | pkg/util/tunutils/tun.go:330-341 | on a stream of packets, chunks fit exactly if there is room beside the packet that the cut has left under way |
| TunStreams.Reassembly | pkg/util/tunutils/tun.go:333-366 | packets cut into chunks anywhere come out in order and once each, with a proper prefix of the next left over, if and only if there is room at every read |
| TunStreams.ReassemblyOfAll | pkg/util/tunutils/tun.go:227-253 | all packets delivered with room at every read: all out, nothing left |
| TunStreams.WholeReadsFit | pkg/util/tunutils/tun.go:227-253 | reads of whole packets no larger than the buffer always fit |
| TunStreams.NoRoomLoses | pkg/util/tunutils/tun.go:330-341 | where there is no room at some read, fewer bytes come out or stay than were read |
| TunStreams.FullReadAfterPartialPacket | pkg/util/tunutils/tun.go:330-341 | at any capacity, part of a packet followed by a full-size read of packets loses bytes |
| TunStreams.ShortLengthStopsTheLoop | pkg/util/tunutils/tun.go:342-364 | bytes on which the loop panics, whatever follows |
| TunStreams.BadHeaderDropsFollowers | pkg/util/tunutils/tun.go:239-244 | behind a bad header a packet is lost or not depending on the cut |
| EndpointStrings.FormatParses | pkg/loadbalancer/util.go:30-37 | an endpoint string parses exactly if node, pod and address have no colon, and then to exactly these |
| EndpointStrings.BuildPortsToEndpointsMap | pkg/loadbalancer/util.go:46-70 | per port name the valid addresses in order of subset, port and address; never an empty list |
| EndpointStrings.ListedEndpointParses | pkg/loadbalancer/util.go:54-64 | the string listed for a valid address parses back exactly if the address is free of colons |
| EndpointStrings.ListedEndpointsParse | pkg/loadbalancer/util.go:30-70 | without colons every listed string parses to a node, pod, address and port of the object |
| EndpointStrings.ValidAddressIsListed | pkg/loadbalancer/util.go:39-70 | every non-empty address is listed under every port with a positive number of its subset, by node, pod, address and number |
| EndpointStrings.EntriesInOrder | pkg/loadbalancer/util.go:46-70 | subsets are gone through in order |
| EndpointStrings.PortEntriesInOrder | pkg/loadbalancer/util.go:50-52 | so are the ports of a subset |
| EndpointStrings.AddressEntriesInOrder | pkg/loadbalancer/util.go:52-64 | and the addresses of a port |
| EndpointStrings.EntriesOfSubset | pkg/loadbalancer/util.go:48-52 | the entries of a subset are those of its ports |
| EndpointStrings.AddressHasOneEntry | pkg/loadbalancer/util.go:54-64 | a valid address has one entry under a port, any other none |
| EndpointStrings.ItoaIsDecimal | pkg/loadbalancer/util.go:63-63 | the text of a port number stands for that number |
| Slices.SliceCompare | pkg/loadbalancer/util.go:135-171 | added is what is new and listed once, deleted is what is gone, both without repetition |
| Slices.SortedIsUnique | pkg/loadbalancer/util.go:82-89 | a multiset of strings has one sorted arrangement |
| Slices.SlicesEquiv | pkg/loadbalancer/util.go:82-89 | true exactly for equal multisets; both slices are only rearranged |
| Policies.UpdateHashRing | pkg/loadbalancer/hashring.go:46-65 | the ring keeps members that stay and gains new endpoints listed once |
| Policies.SyncedMembers | pkg/loadbalancer/hashring.go:46-65 | a synchronised ring is within the endpoints, and equal to them exactly if no new endpoint is listed twice |
| Policies.SyncedDistinct | pkg/loadbalancer/hashring.go:46-65 | without duplicates the ring equals the endpoints |
| Policies.SyncedWithRepeated | pkg/loadbalancer/hashring.go:46-65 | a list after which the ring lacks its only endpoint |
| BalancingInvariants.StepInv | pkg/loadbalancer/loadbalancer.go:609-814 | every event keeps index, records, endpoints and ring in order |
| BalancingInvariants.ReachableInv | pkg/loadbalancer/loadbalancer.go:609-899 | in every state of every ordered run the index is in range, records are filed under their client and name current endpoints, endpoints are those last seen, and a ring in use has only endpoints |
| BalancingInvariants.ReachableRingExact | pkg/loadbalancer/loadbalancer.go:609-814 | with lists free of duplicates a ring in use has exactly the endpoints, also across deletion and re-creation of the service |
| BalancingInvariants.PickIsCurrent | pkg/loadbalancer/loadbalancer.go:837-899 | a pick succeeds exactly when there is an endpoint and, with affinity, a source host; it returns a current endpoint |
| BalancingInvariants.ReachablePickIsCurrent | pkg/loadbalancer/loadbalancer.go:817-899 | every pick of every ordered run returns a current endpoint |
| BalancingInvariants.AddKeepsRecordsExactlyWhen | pkg/loadbalancer/loadbalancer.go:609-640 | an Add keeps the records current exactly if no record names an endpoint the new list lacks |
| BalancingInvariants.AddOutOfOrderGoesStale | pkg/loadbalancer/loadbalancer.go:609-640 | an Add out of order after which a bound client is sent to an endpoint that is gone |
| BalancingInvariants.RingCanMissAnEndpoint | pkg/loadbalancer/loadbalancer.go:674-679 | an ordered run that ends with a ring without the only endpoint of its port |
| BalancingInvariants.ResyncChangesNothing | pkg/loadbalancer/loadbalancer.go:642-698 | after any Add or Update, an Update that sends the same endpoints again, in any order, changes no port |
| BalancingInvariants.RearrangingUpdate | pkg/loadbalancer/loadbalancer.go:642-698 | an update that rearranges the last object and drops no port changes no port |
| ServedPorts.ServesExactlyWhen | pkg/loadbalancer/loadbalancer.go:609-729 | after any run, a port has the endpoints last listed for it exactly if its service was not deleted after the last endpoints event |
| ServedPorts.RecreatedServiceIsNotServed | pkg/loadbalancer/loadbalancer.go:983-1002 | an ordered run after which a listed port has no endpoints |
| RuleRuns.PolicyExactlyWhen | pkg/loadbalancer/loadbalancer.go:747-795 | over all runs a port has a policy exactly if one from before was never taken, or a supported rule came while it had a balancer state and none took the policy since while it had one |
| RuleRuns.RuleDeletePanicsExactlyWhen | pkg/loadbalancer/loadbalancer.go:782-795 | deleting a rule panics exactly if the port has a balancer state and no policy given to it has lasted |
| RuleRuns.RuleBeforeEndpointsPanics | pkg/loadbalancer/loadbalancer.go:782-795 | an ordered run after which deleting the rule panics |
| RuleRuns.PolicyOutlivesRule | pkg/loadbalancer/loadbalancer.go:782-795 | an ordered run after which a port has the policy of a rule that was deleted |
| Affinity.CleanupStep | pkg/loadbalancer/loadbalancer.go:1004-1018 | a cleanup keeps exactly the records a pick would still go by |
| Affinity.PickAlike | pkg/loadbalancer/loadbalancer.go:862-896 | states that differ in expired records only pick the same and stay alike |
| Affinity.CleanupIsInvisible | pkg/loadbalancer/loadbalancer.go:1004-1018 | leaving all cleanups out of any run changes the result of no pick |
| Affinity.CleanupsDoNotMatter | pkg/loadbalancer/loadbalancer.go:396-400 | runs that differ in their cleanups only pick the same endpoints |
| Affinity.ClientSticks | pkg/loadbalancer/loadbalancer.go:853-898 | a bound client gets its endpoint on every timely pick, across all other clients, cleanups, rules and endpoint events that keep it |
| Affinity.PickBinds | pkg/loadbalancer/loadbalancer.go:885-896 | with affinity on, a pick binds the client to what it was given |
| Rotation.Fairness | pkg/loadbalancer/loadbalancer.go:881-883 | after k picks over n positions each was taken floor(k/n) times, plus one within the lap under way |
| Rotation.EveryPositionOncePerLap | pkg/loadbalancer/loadbalancer.go:881-883 | n consecutive picks take each position once |
| Rotation.PicksRotate | pkg/loadbalancer/loadbalancer.go:881-883 | as long as the endpoints stay, affinity is off and no policy picks, the results of the picks are the endpoints in rotation, whatever other events come in between |
| Rotation.PicksAreCounted | pkg/loadbalancer/loadbalancer.go:881-883 | an endpoint is picked as often as the rotation comes to a position that holds it |
| Rotation.PicksAreFair | pkg/loadbalancer/loadbalancer.go:881-883 | with distinct endpoints each gets one pick per full lap, plus one within the lap under way |
| Rotation.LaterAttempts | pkg/loadbalancer/loadbalancer.go:905-934 | attempts that ask for another endpoint dial consecutive positions of the rotation |
| Rotation.ConnectFollowsTrace | pkg/loadbalancer/loadbalancer.go:903-936 | the attempts dial the record first if it wins and then consecutive positions, whatever each dial meets; a connected client is recorded with its endpoint |
| Rotation.ConnectEndsAtLeast | pkg/loadbalancer/loadbalancer.go:903-936 | connecting ends as the least attempt does that is not refused, and is exhausted exactly if all are refused |
| Rotation.ConnectWithoutEndpoint | pkg/loadbalancer/loadbalancer.go:907-911 | without an entry, endpoints or a needed host part connecting fails at once and changes nothing |
| Rotation.RetriesCoverEndpoints | pkg/loadbalancer/loadbalancer.go:903-935 | with fewer endpoints than attempts an endpoint that is up is reached, and the record of the client names it |
| Rotation.FourAttemptsCover | pkg/loadbalancer/loadbalancer.go:903-936 | at the four attempts there are: with at most three endpoints, or four and no valid record, one that is up is reached |
| Rotation.FifthEndpointIsMissed | pkg/loadbalancer/loadbalancer.go:903-936 | five endpoints, and the only one up four ahead of the index is missed |
| Picks.PickByIndex | pkg/loadbalancer/loadbalancer.go:853-883 | with affinity "" or "None" and no policy or round robin, a pick takes the endpoint under the index, moves on by one, and keeps all records |
| Picks.PickAgain | pkg/loadbalancer/loadbalancer.go:862-896 | with affinity "ClientIP" a client that comes back in time gets its endpoint again, and after that the one under the index |
| Picks.PickAnother | pkg/loadbalancer/loadbalancer.go:870-883 | asking for another endpoint passes the record over |
| Picks.PickWithoutHost | pkg/loadbalancer/loadbalancer.go:863-869 | a client without a host part is turned away with affinity only |
| Picks.PickAtRandom | pkg/loadbalancer/policy.go:73-78 | a random policy can give every endpoint, and changes nothing |
| Picks.PickByHash | pkg/loadbalancer/policy.go:111-144 | a hash policy goes by address or header, and falls back on the index |
| Picks.PolicyByName | pkg/loadbalancer/loadbalancer.go:747-814 | what rules make of a port, by the names of policies |
| Picks.OnlyRulesChangePolicies | pkg/loadbalancer/policy.go:146-154 | no other event changes which policy a port has or what it hashes |
| Picks.DroppedPortIsEmpty | pkg/loadbalancer/loadbalancer.go:684-729 | a port whose endpoints are dropped keeps no endpoints, records or ring members, and picks on it fail |
| Picks.NewEndpointsStartOver | pkg/loadbalancer/loadbalancer.go:626-630 | after new endpoints, picks go through the shuffled list from its first on |
| Rotation.ConnectsExactlyWhen | pkg/loadbalancer/loadbalancer.go:903-935 | with any set of endpoints up, connecting succeeds exactly if the record names one or one is near enough ahead of the index |
| Rotation.BoundClientCanMissAnEndpoint | pkg/loadbalancer/loadbalancer.go:905-906 | four endpoints, four attempts, and the dialable endpoint missed |
| ServiceSync.RecordLeads | pkg/loadbalancer/loadbalancer.go:547-579 | recording an event keeps each pending change at the last taken and the live version, collapsing those that became equal |
| ServiceSync.SyncReflects | pkg/loadbalancer/loadbalancer.go:454-545 | applying changes brings the service map from the services they start at to those they lead to |
| ServiceSync.ReachableInv | pkg/loadbalancer/loadbalancer.go:191-203 | over every run of events and syncs applied in the order of taking |
| ServiceSync.SettledReflectsLive | pkg/loadbalancer/loadbalancer.go:191-203 | with nothing pending the service map has exactly one entry per named port of each live service that is not skipped, agreeing on all that sameConfig compares |
| SettledServices.SettledEntries | pkg/loadbalancer/loadbalancer.go:423-511 | with nothing pending the map has for exactly the named ports of live services with an address that are no aliases an entry with the fields of the service |
| SettledServices.SettledSearch | pkg/loadbalancer/loadbalancer.go:1029-1039 | a search by service and port number can find exactly the named ports of the live service with that number |
| SettledServices.SettledSearchSucceeds | pkg/loadbalancer/loadbalancer.go:1029-1039 | it finds one exactly if the live service has one |
| ServiceSync.CoalescingIsIrrelevant | pkg/loadbalancer/loadbalancer.go:547-579 | wherever syncs fall among the same events the service map ends up the same, as far as sameConfig can tell |
| ServiceSync.OvertakingExactlyWhen | pkg/loadbalancer/loadbalancer.go:191-203 | the exact condition, by the versions of the services, under which a sync may apply its changes before an earlier one does |
| ServiceSync.ApplyingOutOfOrderRegresses | pkg/loadbalancer/loadbalancer.go:191-203 | two syncs that apply in the other order leave the older version in the service map |
| StickyTimeout.TimeoutInForceExactlyWhen | pkg/loadbalancer/loadbalancer.go:467-505 | merging a service puts its timeout in force exactly if the port had that timeout already or had no state and gets one |
| StickyTimeout.OtherServicesGiveDefault | pkg/loadbalancer/loadbalancer.go:496-505 | a service without ClientIP affinity gives a port it creates the default |
| StickyTimeout.TimeoutIsOfCreation | pkg/loadbalancer/loadbalancer.go:983-995 | in every run the timeout in force is the one given by the event that created the state |
| StickyTimeout.TimeoutStays | pkg/loadbalancer/loadbalancer.go:983-995 | as long as the state is not deleted no event changes its timeout |
| StickyTimeout.TimeoutOfWholeRun | pkg/loadbalancer/loadbalancer.go:179-206 | the same over every run of handlers and syncs from the start |
| StickyTimeout.EndpointsFirstKeepDefault | pkg/loadbalancer/loadbalancer.go:619-627 | endpoints before the first sync leave the default in force, whatever the service says |
| StickyTimeout.TimeoutChangeIsMissed | pkg/loadbalancer/loadbalancer.go:467-472 | an update of nothing but the timeout leaves the old one in force |
| StartupRace.ReachableInv | pkg/loadbalancer/loadbalancer.go:593-607 | flags, handlers, syncs and pending changes stay in order in every interleaving |
| StartupRace.InitializedInEveryInterleaving | pkg/loadbalancer/loadbalancer.go:731-745 | initialized is set only after both flags, is set once both handlers finish, and not both of their syncs return early |
| StartupRace.NothingIsForgotten | pkg/loadbalancer/loadbalancer.go:572-578 | when nothing is left to run, no change is left pending |
| StartupRace.EarlyReturnLosesNothing | pkg/loadbalancer/loadbalancer.go:185-194 | before initialized is set a sync leaves every pending change in place |
| StateUpdates.EquivalentLists | pkg/loadbalancer/loadbalancer.go:661-661 | compares as multisets on a clone: the sort in place touches the new list and leaves the list served from in its order |
| StateUpdates.RemoveSessionAffinityByEndpoint | pkg/loadbalancer/util.go:92-99 | drops exactly the records of the endpoint |
| StateUpdates.RemoveStaleAffinity | pkg/loadbalancer/loadbalancer.go:405-421 | drops exactly the records of endpoints that the new list lacks |
| StateUpdates.RemoveExpired | pkg/loadbalancer/loadbalancer.go:1012-1017 | drops exactly the expired records |
| LoadBalancers.LoadBalancer.NewServiceInternal | pkg/loadbalancer/loadbalancer.go:983-995 | creates a state, or changes its affinity type only; other ports are untouched |
| LoadBalancers.LoadBalancer.DeleteService | pkg/loadbalancer/loadbalancer.go:997-1002 | removes the state and leaves the policy |
| LoadBalancers.LoadBalancer.CleanupStaleStickySessions | pkg/loadbalancer/loadbalancer.go:1004-1018 | does to every port what its event says |
| LoadBalancers.LoadBalancer.OnEndpointsAdd | pkg/loadbalancer/loadbalancer.go:609-640 | does to every port what the event with the object's lists and some shuffle says |
| LoadBalancers.LoadBalancer.OnEndpointsUpdate | pkg/loadbalancer/loadbalancer.go:642-698 | does to every port what the event with the lists of both objects and some shuffle says, and nothing to a port whose endpoints the object sends again |
| LoadBalancers.LoadBalancer.OnEndpointsDelete | pkg/loadbalancer/loadbalancer.go:712-729 | does to every port what the event says |
| LoadBalancers.LoadBalancer.ResetService | pkg/loadbalancer/loadbalancer.go:700-710 | empties endpoints, records and ring of the port, and of no other |
| LoadBalancers.LoadBalancer.OnDestinationRuleAdd | pkg/loadbalancer/loadbalancer.go:747-760 | does to every port what the event says |
| LoadBalancers.LoadBalancer.OnDestinationRuleUpdate | pkg/loadbalancer/loadbalancer.go:762-780 | panics exactly for an unsupported policy on a service with a port; otherwise does what the event says |
| LoadBalancers.LoadBalancer.OnDestinationRuleDelete | pkg/loadbalancer/loadbalancer.go:782-795 | panics exactly if a port of the service has no policy; otherwise does what the event says |
| LoadBalancers.LoadBalancer.NextEndpointWithConn | pkg/loadbalancer/loadbalancer.go:837-899 | result and new state of a pick, all branches and errors |
| LoadBalancers.LoadBalancer.TryConnectEndpoints | pkg/loadbalancer/loadbalancer.go:903-936 | the outcome of all attempts and the state they leave, with refused dials, lack of descriptors and requests that cannot be written on; an endpoint that is up is reached if there are at most three, or four and no valid record |
| LoadBalancers.LoadBalancer.ServiceChange | pkg/loadbalancer/loadbalancer.go:547-579 | records or collapses the change, and asks for a sync exactly if it has an effect and the balancer is initialized |
| LoadBalancers.LoadBalancer.MergeService | pkg/loadbalancer/loadbalancer.go:454-511 | which entries are kept, replaced or created, and which balancer states with them |
| LoadBalancers.LoadBalancer.UnmergeService | pkg/loadbalancer/loadbalancer.go:513-545 | which entries and balancer states are removed |
| LoadBalancers.LoadBalancer.SyncServices | pkg/loadbalancer/loadbalancer.go:179-206 | applies all changes whatever the order of the map and cleans up every listed port, or returns early and changes nothing |
| LoadBalancers.LoadBalancer.GetServicePortName | pkg/loadbalancer/loadbalancer.go:1029-1039 | a port of the service with that number, none only if there is none |
| LoadBalancers.LoadBalancer.OnServiceSynced | pkg/loadbalancer/loadbalancer.go:593-607 | sets its flag, and initialized if the other flag is set, and starts a sync in any case |
| LoadBalancers.LoadBalancer.OnEndpointsSynced | pkg/loadbalancer/loadbalancer.go:731-745 | sets its flag, and initialized if the other flag is set, and starts a sync in any case |
| PortSync.SyncIsARun | pkg/loadbalancer/loadbalancer.go:200-205 | a sync is at most two events of each port |
| PortSync.WholeRunIsARun | pkg/loadbalancer/loadbalancer.go:179-206 | every run of handlers and syncs is a run of events of each port |
| PortSync.ReachableListed | pkg/loadbalancer/loadbalancer.go:467-543 | in every reachable state a port of the service map has a balancer state |
| WholeRuns.EventsAreOrdered | pkg/loadbalancer/loadbalancer.go:179-206 | handlers in informer order make an ordered run of each port, whatever syncs come in between |
| WholeRuns.EventsAreMonotone | pkg/loadbalancer/loadbalancer.go:179-206 | the events of a port come in the order of the clock if handlers and syncs do |
| WholeRuns.WholeInv | pkg/loadbalancer/loadbalancer.go:179-899 | index, records, endpoints and ring are in order in every state of the whole balancer |
| WholeRuns.WholeRingExact | pkg/loadbalancer/loadbalancer.go:179-814 | with lists free of duplicates a ring in use has exactly the endpoints, across syncs |
| WholeRuns.WholePickIsCurrent | pkg/loadbalancer/loadbalancer.go:837-899 | every pick returns a current endpoint, and a port of the service map is never without its entry |
| WholeRuns.WholeCleanupIsInvisible | pkg/loadbalancer/loadbalancer.go:205-205 | the cleanups at the end of every sync change the result of no pick |
| WholeRuns.SyncCleansUp | pkg/loadbalancer/loadbalancer.go:396-400 | after a sync no record of a port in the service map has reached its timeout |
| WholeRuns.WholeAffinity | pkg/loadbalancer/loadbalancer.go:467-505 | in every state a port of the service map is served with the session affinity its service asks for, whichever of service and endpoints came first |
| Multiaddrs.HopIsMentioned | pkg/tunnel/util.go:195-203 | the text of an address through a relay mentions the circuit, so the filter lets none through |
| Multiaddrs.ContainsExactly | pkg/tunnel/util.go:198-198 | a text contains another exactly if the other stands somewhere in it |
| Multiaddrs.CircuitText | pkg/tunnel/util.go:72-72 | the text of a circuit address |
| Multiaddrs.GeneratedText | pkg/tunnel/util.go:128-141 | the texts of generated addresses, protocol by protocol |
| Multiaddrs.GeneratedExactly | pkg/tunnel/util.go:128-153 | an address is generated exactly for an IPv4 address and a known protocol |
| Multiaddrs.AddressesExactly | pkg/tunnel/util.go:143-153 | all addresses of a node convert, in order, or none |
| Multiaddrs.FilterPrivateMaddr | pkg/tunnel/util.go:182-193 | keeps exactly the public addresses, in order, and panics exactly if one has a single component |
| Multiaddrs.FilterCircuitMaddr | pkg/tunnel/util.go:195-203 | keeps exactly the addresses that do not mention a circuit, in order |
| Multiaddrs.KeptInOrder | pkg/tunnel/util.go:182-203 | filters keep the order and every copy |
| Multiaddrs.AppendAllOnce | pkg/tunnel/util.go:61-67 | addresses are appended once, and not if they are there |
| Multiaddrs.GenerateRelayMap | pkg/tunnel/util.go:155-180 | an entry per usable relay node, the last one of a name winning |
| Multiaddrs.EntryExactlyWhen | pkg/tunnel/util.go:155-173 | a relay node gets an entry exactly if it has a name and advertises IPv4 addresses only, for a known protocol |
| Multiaddrs.LastEntryWins | pkg/tunnel/util.go:155-180 | a name has the entry of the last node of that name that gets one |
| Multiaddrs.NoEntryNoRelay | pkg/tunnel/util.go:155-180 | a name that no node gets an entry for is not in the map |
| Multiaddrs.RelaysOfOk | pkg/tunnel/util.go:155-180 | generated relays have the identity of their name and no address through a relay |
| Multiaddrs.AddCircuitAddrsToPeer | pkg/tunnel/util.go:69-80 | appends one circuit address per address of each relay, once each, or fails exactly if one cannot be made |
| Multiaddrs.CircuitsThroughExactly | pkg/tunnel/util.go:69-80 | one circuit for each address of a relay, in order |
| Multiaddrs.AddedCircuitsHaveOneHop | pkg/tunnel/util.go:69-80 | each address added leads through exactly one relay |
| Tunnel.EdgeTunnel.Discovery | pkg/tunnel/tunnel.go:127-199 | what is sent if a stream can be opened and written, and that only a SUCCESS response maps its name to the peer dialled |
| Tunnel.EdgeTunnel.DiscoveryStreamHandler | pkg/tunnel/tunnel.go:205-241 | a CONNECT is answered and its name mapped to the peer, unless the answer cannot be written |
| Tunnel.EdgeTunnel.ResolvePeer | pkg/tunnel/tunnel.go:260-273 | the cached identity, else the derived one, which is cached |
| Tunnel.LookupIsRemembered | pkg/tunnel/tunnel.go:260-273 | the identity a lookup gives is cached under the name |
| Tunnel.EdgeTunnel.NodeNameFromPeerID | pkg/tunnel/tunnel.go:486-493 | a name mapped to the identity, none only if there is none |
| Tunnel.EdgeTunnel.RefreshRelayMap | pkg/tunnel/tunnel.go:541-556 | adds the public addresses without circuits, to a new or a known relay, without repetition; on a panic nothing is changed |
| Tunnel.EdgeTunnel.Reload | pkg/tunnel/tunnel.go:667-672 | replaces the relay map by the generated one |
| Tunnel.LookupRightExactlyWhen | pkg/tunnel/tunnel.go:195-273 | after any run, whatever messages say, looking up a name gives its derived identity exactly if the last message that taught the node the name came from that identity |
| Tunnel.AnyWordIsBelieved | pkg/tunnel/tunnel.go:222-240 | a message from another identity after which a lookup gives that identity |
| Tunnel.RefreshOk | pkg/tunnel/tunnel.go:541-556 | refreshing keeps identities right and relay addresses free of relays |
| Tunnel.RefreshedAddresses | pkg/tunnel/tunnel.go:541-556 | after a refresh a relay has the addresses it had and those found that are not private and mention no circuit |
| Tunnel.ReachablePublic | pkg/tunnel/tunnel.go:495-556 | if no configured relay advertises a private address, no relay address in any reachable network is private |
| Tunnel.ReachableInv | pkg/tunnel/tunnel.go:127-277 | in every reachable network state all names map to their derived identities and no relay address leads through a relay |
| Tunnel.LookupIsAlwaysRight | pkg/tunnel/tunnel.go:256-277 | whatever happened before, a lookup uses the derived identity and one-hop circuits |
| Tunnel.HandshakeLasts | pkg/tunnel/tunnel.go:127-241 | after a handshake both nodes know each other by the right identities in every later state |
| Tunnel.NameOfPeerIsUnique | pkg/tunnel/tunnel.go:486-493 | with distinct identities the name found does not depend on the order of the map |

## Left out

- Kubernetes and Istio clients, informers, object type switches and tombstones: only the ordered events they deliver.
- The ring library, hashing, random numbers and the sort routine: a ring is its set of members, the sort an insertion sort.
- BufferRuns.Run: does not say which bytes a recovery finds in place of those that were overrun, or without a mark in force; they are whatever the memory holds.
- Bit operations of the frame codec: shifts and masks are written as division, remainder and sum.
- Identity of Go objects: balancer states, affinity records, rings and address lists are values in maps, so sharing of pointers is not modelled; flags of removed service entries are not kept either.
- Locks: each handler is one atomic step, except in `StartupRace` and for the taking and applying of changes in `ServiceSync`.
- LoadBalancers.LoadBalancer.OnDestinationRuleUpdate: says nothing about the state after a panic, because the process ends there; the same holds for OnDestinationRuleDelete.
- BalancingInvariants.ReachableRingExact: assumes lists free of duplicates, because the code keeps the ring equal to the endpoints only then; ReachableInv has no such assumption.
- TunStreams.ChunkingIsIrrelevantExactlyWhen: assumes a clean stream; CutDoesNotMatterExactlyWhen has the malformed ones, with chunks that fit. Streams that have both something malformed and a chunk that does not fit are covered by neither.
- Reading HTTP requests and writing them on: a client has headers or none.
- libp2p hosts, the DHT, mDNS, hole punching, resource limits and key generation: the identity of a name is a function of the name.
- Tunnel.ReachableInv: covers runs without a panic; a multiaddress of a single component makes the relay finder panic, which ends the process.
- The peer store, relay service start and stop, heartbeat and bootstrap connections.
- The tun device, raw sockets, shell commands, and the packages proxy, gateway, dns, cni and config: input and output, or plain lookups.
- IPFrame getters and ServiceHasEndpoints: plain field reads and lookups.
