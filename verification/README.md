# OpenVPN 2.0.9 and dd_rescue: models and proofs

Dafny models of the stateful core of the OpenVPN 2.0.9 source that Backharddi bundles, and of the copy
loop of its `dd_rescue`, with proofs of what that code is for.

| part | modules | sources |
|---|---|---|
| anti-replay window | `CircLists`, `PacketIds`, `ReplaySafety` | packet_id.c/.h, circ_list.h, integer.h |
| fragmentation and reassembly | `Fragments`, `Sending`, `Reassembly`, `Delivery` | fragment.c/.h |
| virtual routing with its host-route cache | `Routing`, `RouteCache`, `RouteRuns`, `RouteLimits`, `RouteReaper`, `MultiContexts` | multi.c/.h, mroute.c |
| chained hash table | `Bits`, `HashTables`, `HashIterators` | list.c/.h, misc.c |
| broadcast ring | `MbufQueue`, `Mbufs` | mbuf.c/.h, multi.c |
| address pool | `AddressPool` | pool.c |
| static key file | `KeyFiles`, `KeyParser`, `KeyLineReader` | crypto.c, buffer.c |
| encryption layers and their self-test | `PacketBuffers`, `Encryption`, `PacketCrypto`, `SelfTest` | crypto.c, buffer.h, mtu.h |
| management lines | `ManagementLines` | manage.c, buffer.c |
| dd_rescue | `DdRescue` | dd_rescue.c |

Code that changes things step by step is modelled by classes and loops. Each such method is proved to do
what a function on values says, and the properties are then lemmas about those functions over whole runs.
`Integers`, `Bytes`, `Sequences` and `Wrappers` hold what the parts share. Proofs use `hide` to keep
definitions that they do not need out of sight.

The clock, the verdict of the learn-address script, what each read returns, random keys and IVs, and the
outcome of each disk access are parameters or free choices. `now` does not change during one call.

Where the code and its documentation differ, the code is followed:

- `mbuf_add_item` asserts that a full ring holds a live item (mbuf.c:102). `MbufQueue.AddDropsOldest`
  gives the exact condition, `MbufQueue.AddCanFail` a ring in which the assertion fails.
- A fixed pool entry that is hard-released keeps its mark and loses its name, so nobody gets it again
  (`AddressPool.FixedStays`); with duplicate_cn a fixed entry may go to anybody.
- `writeblock` never returns a negative count, so the branches of `copyfile` for a full disk
  (dd_rescue.c:374-376, 413-415 and 465-467) are dead, and the model has none.
- At the hard block size `copyfile` counts a short read as skipped, also at the end of the input. So with
  softbs = hardbs a faultless copy is complete exactly when the input ends at a block border or not before
  the maximum (`DdRescue.Rescue.CopyFile`). `DdRescue.ShortInput` is a single byte that is given up.
- The sliding fragment window tells sequence ids apart up to a distance of 231, not 255. The exact condition
  is `Reassembly.ReachIsExact`; for each distance from 232 to 255, ahead and behind, `Reassembly.MixesAhead`
  and `Reassembly.MixesBehind` give a run that delivers half of one datagram joined to half of another.

## Model

| member | source | states |
|---|---|---|
| `ReplaySafety.NoReplay` | udebs/addons/openvpn/source/packet_id.c:90-229 | from packet_id_init, with or without a backtrack window, no (time, id) pair is accepted twice in any run of reap tests, tests and adds, across shifts, far jumps, new timestamps and expiry |
| `ReplaySafety.VerdictAfterRun` | udebs/addons/openvpn/source/packet_id.c:163-229 | after any run the verdict on a pin is a fact about the events of the run alone, times of expiry included: accepted iff the id is nonzero, timely (newer timestamp, or in the window and not expired) and not among the pins accepted so far; the list then holds min(highest id, seq_backtrack) slots |
| `ReplaySafety.RunRefines` | udebs/addons/openvpn/source/packet_id.c:90-213 | the backwards-indexed list with its time of the last reap and the plain set of accepted ids with an expiry floor and a clock of its own stay in step over every run |
| `ReplaySafety.TestRefines` | udebs/addons/openvpn/source/packet_id.c:163-213 | packet_id_test on the list is the verdict of the plain set |
| `ReplaySafety.AddRefines` | udebs/addons/openvpn/source/packet_id.c:90-130 | packet_id_add on the list, with its shift, restart and clamp, is adding one id to the plain set |
| `ReplaySafety.ReapRefines` | udebs/addons/openvpn/source/packet_id.c:137-157 | packet_id_reap expires exactly the ids at or below the highest stale one, and notes the time |
| `ReplaySafety.ExpiredSuffix` | udebs/addons/openvpn/source/packet_id.c:147-149 | expired slots are a suffix of the list, which is why the reap loop may stop at the first |
| `ReplaySafety.StrictModeInSeries` | udebs/addons/openvpn/source/packet_id.c:214-228 | without a window the accepted ids of each timestamp are 1, 2, 3, ... in order |
| `ReplaySafety.StrictModeAcceptsSeries` | udebs/addons/openvpn/source/packet_id.c:214-228 | and whatever arrives in that order is accepted in full |
| `ReplaySafety.AllocatedCountUp` | udebs/addons/openvpn/source/packet_id.h:299-312 | outgoing ids count up from 1 under the clock reading of the first allocation, until the id wraps |
| `ReplaySafety.AllocatedInSeries` | udebs/addons/openvpn/source/packet_id.h:299-312 | across wraps too each outgoing pin follows the one before it, iff at each wrap the clock is past the old timestamp |
| `ReplaySafety.SentThenAcceptedOnce` | udebs/addons/openvpn/source/packet_id.h:299-312 | ids allocated by a sender and delivered in any order, each timely when it first arrives, are each accepted exactly once however often they are repeated |
| `PacketIds.PacketIdRec.constructor` | udebs/addons/openvpn/source/packet_id.c:57-76 | the fresh record |
| `PacketIds.PacketIdRec.TestPin` | udebs/addons/openvpn/source/packet_id.c:163-229 | the test on the ring in memory equals the test on the list it stands for |
| `PacketIds.PacketIdRec.AddPin` | udebs/addons/openvpn/source/packet_id.c:90-130 | the add on the ring leaves the list that the add on lists gives |
| `PacketIds.PacketIdRec.Rebase` | udebs/addons/openvpn/source/packet_id.c:99-110 | a newer time or a far jump empties the list and moves the highest id to just below the window |
| `PacketIds.PacketIdRec.PushUnseen` | udebs/addons/openvpn/source/packet_id.c:114-118 | the push loop shifts the window by the jump of the id, dropping what falls out |
| `PacketIds.PacketIdRec.ExpireTail` | udebs/addons/openvpn/source/packet_id.c:141-155 | the loop with its early exit equals the pass over the whole list |
| `PacketIds.PacketIdRec.ReapWindow` | udebs/addons/openvpn/source/packet_id.c:137-157 | a reap, and the time of the last one |
| `PacketIds.PacketIdRec.ReapWindowTest` | udebs/addons/openvpn/source/packet_id.h:327-332 | a reap every five seconds |
| `CircLists.CircList.Push` | udebs/addons/openvpn/source/circ_list.h:41-46 | a push puts the item in front and, once full, drops the oldest |
| `CircLists.CircList.Item` | udebs/addons/openvpn/source/circ_list.h:51-57 | index i is the i-th newest item |
| `CircLists.CircList.SetItem` | udebs/addons/openvpn/source/circ_list.h:51-57 | an assignment through the index changes that item only |
| `CircLists.CircList.Reset` | udebs/addons/openvpn/source/circ_list.h:59-63 | a reset empties the list |
| `Integers.ModuloSubtract` | udebs/addons/openvpn/source/integer.h:67-82 | the signed distance round a circle is one of the three differences and the shorter way |
| `Integers.ModuloAdd` | udebs/addons/openvpn/source/integer.h:84-100 | the sum stays on the circle |
| `Fragments.HeaderRoundTrip` | udebs/addons/openvpn/source/fragment.h:101-134 | type, sequence id, fragment id and size, packed into 32 bits, read back field for field |
| `Fragments.OptimalFragmentSize` | udebs/addons/openvpn/source/fragment.c:290-302 | the size is positive, a multiple of 4 and no larger than allowed |
| `Sending.SameFragmentCount` | udebs/addons/openvpn/source/fragment.c:285-302 | the chosen size needs exactly as many fragments as the aligned maximum |
| `Sending.SameCounts` | udebs/addons/openvpn/source/fragment.c:285-302 | a number of fragments fits the chosen size iff it fits the aligned maximum |
| `Sending.SimilarSizes` | udebs/addons/openvpn/source/fragment.c:285-302 | the last fragment is of similar size as the others: at least three quarters as long, or shorter by less than seven bytes for each fragment |
| `Sending.OutgoingSendsAll` | udebs/addons/openvpn/source/fragment.c:305-387 | a datagram within 32 fragments leaves as fragments 0..k-1 of one sequence id, each header as the receiver expects it, until nothing is left |
| `Sending.SlicesConcat` | udebs/addons/openvpn/source/fragment.c:354-387 | the slices put end to end are the datagram |
| `Fragments.FragmentSender.Outgoing` | udebs/addons/openvpn/source/fragment.c:305-352 | the sending step on the mutable state equals the step on values |
| `Fragments.FragmentSender.Ready` | udebs/addons/openvpn/source/fragment.c:354-387 | the next slice with its header |
| `Fragments.FragmentList.StepForward` | udebs/addons/openvpn/source/fragment.c:75-80 | the loop clears exactly the slots of the ids that enter the window |
| `Fragments.FragmentList.ClearAll` | udebs/addons/openvpn/source/fragment.c:66-74 | a far jump clears every slot |
| `Fragments.FragmentList.FindSlot` | udebs/addons/openvpn/source/fragment.c:62-82 | the slot of an id and the window after the call |
| `Fragments.FragmentList.Assemble` | udebs/addons/openvpn/source/fragment.c:199-227 | copying a fragment, marking the map and detecting the last missing one |
| `Fragments.FragmentList.Receive` | udebs/addons/openvpn/source/fragment.c:134-246 | the whole receiving step |
| `Fragments.FragmentList.ReapOld` | udebs/addons/openvpn/source/fragment.c:389-402 | every slot older than the TTL is dropped, and no other |
| `Reassembly.Faithful` | udebs/addons/openvpn/source/fragment.c:134-246 | for every interleaving, loss, repetition and reordering of fragments of many datagrams, with reaping in between, within reach 231: whatever is delivered is the very datagram the packet was cut from |
| `Reassembly.DeliveredWhenComplete` | udebs/addons/openvpn/source/fragment.c:199-227 | a datagram whose slot is left alone is delivered exactly when its last missing fragment arrives |
| `Reassembly.RunRefines` | udebs/addons/openvpn/source/fragment.c:134-246 | the 25-slot window over 8-bit ids delivers what an unbounded receiver with one set of fragments per datagram delivers, at the same moments |
| `Reassembly.GetBufSlides` | udebs/addons/openvpn/source/fragment.c:62-82 | one call moves the window, clears the slots of the ids that enter and keeps every other slot with its id |
| `Reassembly.PlacesDistinct` | udebs/addons/openvpn/source/fragment.c:62-82 | distinct ids in the window have distinct slots, across the wrap at 25 |
| `Reassembly.ReachIsExact` | udebs/addons/openvpn/source/fragment.c:62-82 | 231 is exact: for a distance up to 255 the call moves the window as it should iff the distance is at most 231, or the id is far behind and every slot that should then have been forgotten is empty |
| `Reassembly.BeyondAhead` | udebs/addons/openvpn/source/fragment.c:62-82 | for each distance 232 to 255 ahead the window stands still and hands out a slot inside it |
| `Reassembly.BeyondBehind` | udebs/addons/openvpn/source/fragment.c:62-82 | for each distance 232 to 255 behind the window takes a few steps forward, and keeps the slots it should have forgotten |
| `Reassembly.MixesAhead` | udebs/addons/openvpn/source/fragment.c:134-246 | for each distance 232 to 255 ahead there are three datagrams and a run whose last fragment comes that far ahead, all others within reach, that delivers bytes which are none of the datagrams |
| `Reassembly.MixesBehind` | udebs/addons/openvpn/source/fragment.c:134-246 | and so behind: one fragment comes that far behind, and the next, within reach, completes a mixture |
| `Reassembly.MarkMeans` | udebs/addons/openvpn/source/fragment.c:212-219 | the 32-bit map is full exactly when every fragment has been received |
| `Reassembly.ReapRefines` | udebs/addons/openvpn/source/fragment.c:389-402 | TTL reaping is the removal of stale datagrams from the unbounded receiver |
| `Delivery.WholeIsHandedOn` | udebs/addons/openvpn/source/fragment.c:331-341 | a datagram that fits goes out as one packet, leaves the sender as it was, and is handed on by the receiver at once, unchanged, whatever the state of its window |
| `Delivery.EndToEnd` | udebs/addons/openvpn/source/fragment.c:134-387 | datagrams of any lengths through sender and receiver, with packets lost, repeated and reordered within reach and timers between: whatever comes in at a packet is the datagram it is of; a datagram that was not cut comes in with its packet |
| `Delivery.InOrder` | udebs/addons/openvpn/source/fragment.c:134-387 | without loss and reordering every datagram that is not refused comes in, once, in order and unchanged, and nothing else does |
| `Delivery.StrangeIsDropped` | udebs/addons/openvpn/source/fragment.c:134-246 | a packet without a whole header, of an unknown type, or whole with a number in its header, is dropped without a trace |
| `Delivery.UnfitIsDropped` | udebs/addons/openvpn/source/fragment.c:134-246 | a fragment of odd size or beyond the buffer hands nothing on and adds to no slot |
| `Delivery.OtherSizeRestarts` | udebs/addons/openvpn/source/fragment.c:199-206 | a fragment of another size makes its slot begin again with that fragment alone |
| `RouteRuns.LookupsAreTransparent` | udebs/addons/openvpn/source/multi.c:866-942 | after every run of clients created, connected and closed, lookups and reaps at any times: a lookup answers exactly what longest-prefix match (section 5.1 of RFC 4632) gives over the plain table of explicitly learned routes, cached or not |
| `RouteRuns.ReferencesConserved` | udebs/addons/openvpn/source/multi.h:258-282 | after every run each instance in memory is referenced once for itself until it halts and once by each route that names it, and no route names a freed one |
| `RouteRuns.StepKeeps` | udebs/addons/openvpn/source/multi.c:776-1000 | every event keeps the invariant and changes the explicit routes as a plain table would change |
| `RouteRuns.ConnectKeeps` | udebs/addons/openvpn/source/multi.c:945-1000 | learning the host address and all iroutes, with the script refusing any of them |
| `RouteRuns.ConnectLearns` | udebs/addons/openvpn/source/multi.c:776-861 | when the scripts agree and the quota has room, a connecting client learns exactly the learnable keys among its address and iroutes, except the server's own address, in their order |
| `RouteLimits.RefusedLearn` | udebs/addons/openvpn/source/multi.c:776-861 | when the script refuses, the quota is full or the address is none to learn, a learn leaves the table and the owner alone |
| `RouteLimits.GrantedLearn` | udebs/addons/openvpn/source/multi.c:776-861 | any other learn makes the instance the owner, for good, or for a minute when the route is a cached one |
| `RouteLimits.ConnectGrants` | udebs/addons/openvpn/source/multi.c:945-1000 | whatever the scripts say, a connecting client owns only keys for which a verdict was true |
| `RouteLimits.QuotaKept` | udebs/addons/openvpn/source/multi.h:227-250 | after every run no client has more routes, cached ones included, than the quota it was created with |
| `RouteRuns.CloseKeeps` | udebs/addons/openvpn/source/multi.c:435-497 | closing an instance removes its routes from the table and its lengths from the counts |
| `RouteRuns.ReapKeeps` | udebs/addons/openvpn/source/multi.c:124-155 | the reaper changes no explicit route |
| `RouteCache.LookupIsMatch` | udebs/addons/openvpn/source/multi.c:866-942 | in any state with the invariant the answer is a longest match |
| `RouteCache.LongestMatchUnique` | udebs/addons/openvpn/source/multi.c:866-942 | longest-prefix match has one answer |
| `RouteCache.LengthsSorted` | udebs/addons/openvpn/source/mroute.c:298-323 | net_len is the strictly descending list of the lengths in use |
| `RouteCache.ScanIsBest` | udebs/addons/openvpn/source/multi.c:895-914 | the scan over net_len ignores the clock: it finds the live network route of the first length that has one |
| `RouteCache.LookupKeeps` | udebs/addons/openvpn/source/multi.c:866-942 | a lookup refreshes or adds cached host routes only, and keeps the invariant, so a cached route of the current generation always agrees with the scan |
| `RouteCache.TouchRenews` | udebs/addons/openvpn/source/multi.c:866-942 | a lookup answered by a host route renews it: an ageable one gives that answer for 60 seconds more, and no longer |
| `RouteCache.ScanIsCached` | udebs/addons/openvpn/source/multi.c:866-942 | a lookup answered by the scan leaves a host route with that answer, for 60 seconds |
| `RouteCache.HostsOnly` | udebs/addons/openvpn/source/multi.c:866-942 | without CIDR routing only host routes answer, and nothing is learned |
| `Routing.LearnCounted` | udebs/addons/openvpn/source/multi.c:776-861 | learning keeps the reference and route counts and frees nobody who is live |
| `Routing.CloseCounted` | udebs/addons/openvpn/source/multi.c:435-497 | a closed instance stays in memory exactly as long as a route names it; a shutdown leaves the CIDR lengths alone |
| `Routing.ReapRemovesUndefined` | udebs/addons/openvpn/source/multi.c:124-155 | a pass removes exactly the undefined routes among those it meets |
| `RouteReaper.ReaperVisits` | udebs/addons/openvpn/source/multi.c:174-183 | any ceil(n_buckets / buckets_per_pass) consecutive passes visit every bucket |
| `RouteReaper.ReaperCoverage` | udebs/addons/openvpn/source/multi.c:174-183 | over such a cycle, wherever it begins and whatever legal run of events comes between its passes, an entry that is undefined whenever a pass begins is removed by some pass |
| `RouteReaper.ReaperCleans` | udebs/addons/openvpn/source/multi.c:174-183 | and is gone at the end of the cycle if nothing brings its key back after its removal |
| `RouteReaper.ReaperSpares` | udebs/addons/openvpn/source/multi.c:174-183 | an entry that is defined whenever a pass begins is left as it is by every pass |
| `RouteReaper.ReapInvisible` | udebs/addons/openvpn/source/multi.c:124-155 | a pass changes no answer of a lookup at the same time |
| `RouteReaper.ShutdownFreesAll` | udebs/addons/openvpn/source/multi.c:502-543 | after closing every instance and reaping everything, no instance and no route is left in memory |
| `MultiContexts.RouteHelper.Rebuild` | udebs/addons/openvpn/source/mroute.c:298-323 | the loop writes the descending list of lengths in use |
| `MultiContexts.RouteHelper.AddLength` | udebs/addons/openvpn/source/mroute.c:325-338 | a length is counted, and the generation moves on |
| `MultiContexts.RouteHelper.DeleteLength` | udebs/addons/openvpn/source/mroute.c:340-354 | a length is given back, and the generation moves on |
| `MultiContexts.LearnableAddress` | udebs/addons/openvpn/source/mroute.c:67-83 | the loop over the bytes refuses all zeros and all ones, and nothing else in tun mode |
| `MultiContexts.LearnableBytes` | udebs/addons/openvpn/source/mroute.c:67-83 | in terms of numbers, those are the addresses other than the lowest and the highest |
| `MultiContexts.MultiContext.RouteDefined` | udebs/addons/openvpn/source/multi.h:284-298 | live owner, current generation when cached, young enough when ageable |
| `MultiContexts.MultiContext.LearnAddr` | udebs/addons/openvpn/source/multi.c:776-861 | the learning step on the mutable state |
| `MultiContexts.MultiContext.GetInstanceByVirtualAddr` | udebs/addons/openvpn/source/multi.c:866-942 | the lookup step on the mutable state |
| `MultiContexts.MultiContext.ScanLengths` | udebs/addons/openvpn/source/multi.c:895-914 | the cycle through the CIDR lengths |
| `MultiContexts.MultiContext.DeleteRoute` | udebs/addons/openvpn/source/multi.h:275-282 | a deleted route gives back its count and its reference |
| `MultiContexts.MultiContext.CloseInstance` | udebs/addons/openvpn/source/multi.c:435-497 | the closing step on the mutable state |
| `MultiContexts.MultiContext.DelIroutes` | udebs/addons/openvpn/source/multi.c:379-389 | every iroute gives back its length |
| `MultiContexts.MultiContext.AddIroutesLoop` | udebs/addons/openvpn/source/multi.c:973-1000 | every iroute is counted and learned in turn |
| `MultiContexts.MultiContext.ReapEntries` | udebs/addons/openvpn/source/multi.c:124-155 | the loop that deletes undefined entries |
| `Bits.AdjustPowerOf2` | udebs/addons/openvpn/source/misc.c:1072-1088 | the least power of two not below u; the assertion fails exactly above 2^31 |
| `Bits.Masked` | udebs/addons/openvpn/source/list.h:145-149 | masking with n - 1 is the remainder by n when n is a power of two |
| `HashTables.HashTable.constructor` | udebs/addons/openvpn/source/list.c:40-63 | an empty table with a power of two of buckets |
| `HashTables.HashTable.BucketByMask` | udebs/addons/openvpn/source/list.c:155-155 | the bucket that the mask picks is the one that the invariant speaks of |
| `HashTables.HashBucket.Find` | udebs/addons/openvpn/source/list.c:92-114 | the search finds the element of the key with its predecessor, or none is there |
| `HashTables.HashBucket.MoveToFront` | udebs/addons/openvpn/source/list.c:101-107 | the relinked chain is the old one with that element taken to the front |
| `HashTables.HashBucket.Sweep` | udebs/addons/openvpn/source/list.c:192-217 | a sweep unlinks exactly the marked elements |
| `HashTables.HashTable.LookupFast` | udebs/addons/openvpn/source/list.c:86-115 | a lookup finds the element of the key iff the map has the key, leaves it first in its bucket, and changes no entry |
| `HashTables.HashTable.RemoveFast` | udebs/addons/openvpn/source/list.c:117-144 | the map without the key, and whether it had it |
| `HashTables.HashTable.AddFast` | udebs/addons/openvpn/source/list.h:186-202 | the map with the new key |
| `HashTables.HashTable.Add` | udebs/addons/openvpn/source/list.c:146-175 | the map with the new value if the key is new or replace is set, else the old map |
| `HashTables.HashTable.SizeIsElements` | udebs/addons/openvpn/source/list.h:133-137 | n_elements is the size of the map when nothing waits for a sweep |
| `HashTables.OnePerKey` | udebs/addons/openvpn/source/list.c:146-175 | no two elements share a key, so elements and keys are equally many |
| `HashIterators.FlatOnce` | udebs/addons/openvpn/source/list.c:231-252 | the chains of a range of buckets hold each of its elements exactly once and no others |
| `HashIterators.FlatSplits` | udebs/addons/openvpn/source/list.c:231-252 | adjacent ranges yield together what one range over both yields |
| `HashIterators.InitRange` | udebs/addons/openvpn/source/list.c:231-252 | the elements still to come are those of the range |
| `HashIterators.Next` | udebs/addons/openvpn/source/list.c:306-336 | each call yields the next element still to come, alive, and NULL only at the end; marked elements are swept behind the cursor and never those ahead |
| `HashIterators.DeleteElement` | udebs/addons/openvpn/source/list.c:338-344 | the entry of the element returned last leaves the map, and the walk goes on undisturbed |
| `HashIterators.Unlock` | udebs/addons/openvpn/source/list.c:274-291 | the marked elements of the bucket left behind are freed |
| `HashIterators.RemoveByValue` | udebs/addons/openvpn/source/list.c:177-190 | the entries with another value stay and all others are gone, from the map and from memory |
| `MbufQueue.RunAccounts` | udebs/addons/openvpn/source/mbuf.c:94-183 | over every run, what was delivered and what still waits is in order a part of what was queued, and every queued item was delivered, dropped as the oldest, detached with its instance, or still waits |
| `MbufQueue.AddDropsOldest` | udebs/addons/openvpn/source/mbuf.c:94-113 | an add loses nothing while there is room and else exactly the oldest live item; its assertion fails iff the ring is full without a live item |
| `MbufQueue.AddCanFail` | udebs/addons/openvpn/source/mbuf.c:94-113 | a ring in which that happens |
| `MbufQueue.ExtractIsOldest` | udebs/addons/openvpn/source/mbuf.c:115-139 | the oldest live item leaves and no other live item goes with it |
| `MbufQueue.DereferenceDetaches` | udebs/addons/openvpn/source/mbuf.c:163-183 | exactly the items of the instance are lost |
| `MbufQueue.DropsAreFullAdds` | udebs/addons/openvpn/source/mbuf.c:94-113 | the number of drops is the number of adds that found the ring full |
| `Mbufs.MbufSet.constructor` | udebs/addons/openvpn/source/mbuf.c:42-51 | an empty ring whose capacity is a power of two |
| `Mbufs.MbufSet.MbufIndex` | udebs/addons/openvpn/source/mbuf.h:42-42 | the masked sum is the position round the ring |
| `Mbufs.MbufSet.AddItem` | udebs/addons/openvpn/source/mbuf.c:94-113 | the queue after the add, and for every buffer references minus slots unchanged |
| `Mbufs.MbufSet.ExtractItem` | udebs/addons/openvpn/source/mbuf.c:115-139 | the item and the queue after it |
| `Mbufs.MbufSet.Peek` | udebs/addons/openvpn/source/mbuf.c:141-161 | the instance of the item that the next extraction returns |
| `Mbufs.MbufSet.DereferenceInstance` | udebs/addons/openvpn/source/mbuf.c:163-183 | the slots of the instance are emptied, and for every buffer references minus slots unchanged |
| `Mbufs.MbufSet.Free` | udebs/addons/openvpn/source/mbuf.c:53-68 | every reference of the ring is given back |
| `Mbufs.MbufSet.GetQueue` | udebs/addons/openvpn/source/multi.c:1807-1833 | the data of the oldest live item for its instance; the reference of its slot is given back |
| `Mbufs.Bcast` | udebs/addons/openvpn/source/multi.c:1443-1473 | one shared buffer is queued for each wanted client in turn; afterwards its references are exactly its slots, and those of all other buffers minus their slots are unchanged |
| `Mbufs.SpreadReaches` | udebs/addons/openvpn/source/multi.c:1407-1473 | with room for all, a client gets the broadcast iff it is not the one to omit, has not halted, and its TCP output queue is not over the limit |
| `AddressPool.IfconfigPool.Find` | udebs/addons/openvpn/source/pool.c:58-110 | the entry taken: the first free one with duplicate_cn; else the first free one of that name; else the earliest released that is not fixed, the first of several |
| `AddressPool.ChoiceUnique` | udebs/addons/openvpn/source/pool.c:58-110 | that promise fixes the result |
| `AddressPool.IfconfigPool.Acquire` | udebs/addons/openvpn/source/pool.c:189-225 | the entry becomes the client's, and the two addresses handed out are those of its handle: the first host address of a block of four is the local one, the second the remote one |
| `AddressPool.IfconfigPool.Release` | udebs/addons/openvpn/source/pool.c:227-237 | the entry is free again; a hard release also forgets the name |
| `AddressPool.IfconfigPool.Set` | udebs/addons/openvpn/source/pool.c:297-310 | the entry of an address waits for a name |
| `AddressPool.IfconfigPool.constructor` | udebs/addons/openvpn/source/pool.c:140-174 | the pool covers the blocks from the one of start to the one of end, all free |
| `AddressPool.PoolRange` | udebs/addons/openvpn/source/pool.c:151-161 | the size computed in 32 bits, where (end | 3) + 1 may wrap, is right for every legal range |
| `AddressPool.HandleRoundTrip` | udebs/addons/openvpn/source/pool.c:243-295 | a handle converts to its address and back |
| `AddressPool.AddressRoundTrip` | udebs/addons/openvpn/source/pool.c:243-295 | an address has a handle iff it lies in the pool, and converts back to the base of its block |
| `AddressPool.RunExclusive` | udebs/addons/openvpn/source/pool.c:189-237 | over every run of acquire and release no handle is given out twice at a time |
| `AddressPool.LeasesAreDisjoint` | udebs/addons/openvpn/source/pool.c:189-237 | two leases never share an address, and all lie in the pool |
| `AddressPool.FixedStays` | udebs/addons/openvpn/source/pool.c:58-110 | without duplicate_cn a fixed entry is never in use by another name, over every run; once hard-released it has no name and is never handed out again |
| `AddressPool.FixedForAnyone` | udebs/addons/openvpn/source/pool.c:71-78 | with duplicate_cn a fixed entry may go to another name |
| `AddressPool.ReturningClient` | udebs/addons/openvpn/source/pool.c:90-104 | a returning name with a free entry bearing it gets such an entry |
| `AddressPool.ChoiceLeaves` | udebs/addons/openvpn/source/pool.c:58-110 | the search leaves a free entry iff something goes before it: with duplicate_cn an earlier free entry; if the entry bears the client's name, an earlier one that does; else its own fixed mark, an entry of the client's name, or an open entry released earlier |
| `AddressPool.WaitsForReturn` | udebs/addons/openvpn/source/pool.c:189-237 | as long as each arriving client finds something that goes before a free entry, the entry keeps its name, its time and its mark |
| `AddressPool.GetsItsEntryBack` | udebs/addons/openvpn/source/pool.c:58-110 | after such a run the client named in the entry gets it back iff no earlier entry was waiting for that client too |
| `AddressPool.EntriesTellTheirStory` | udebs/addons/openvpn/source/pool.c:44-56 | after every run each entry says what happened to it: its holder by name; after a soft release the name and the time; after a hard release nothing |
| `AddressPool.SoftReleaseIsRemembered` | udebs/addons/openvpn/source/pool.c:44-110 | a client that leaves softly gets its entry back if it is passed along meanwhile and no earlier one waits for it; one released hard is a stranger to its entry |
| `KeyParser.KeyFileRoundTrip` | udebs/addons/openvpn/source/crypto.c:987-1128 | reading back the text printed for one or two keys ends behind the footer with exactly those bytes and their number |
| `KeyLineReader.ReadsByLines` | udebs/addons/openvpn/source/crypto.c:987-1128 | a file is taken, and for that key, exactly when, read line by line, it has a header line, then lines of hexadecimal digits and space up to the digits of two keys, then a footer line, and digits for at least one key |
| `KeyParser.ReadKeyFile` | udebs/addons/openvpn/source/crypto.c:987-1128 | the result depends on the whole text only, however it is cut into reads; two keys at most |
| `KeyParser.FeedStep` | udebs/addons/openvpn/source/crypto.c:1020-1092 | the loop body, one character |
| `KeyParser.DumpParsed` | udebs/addons/openvpn/source/crypto.c:1076-1092 | a dump of bytes in lines of sixteen is parsed to those bytes |
| `KeyParser.ParseConcat` | udebs/addons/openvpn/source/crypto.c:1012-1099 | parsing a text is parsing its parts in turn |
| `KeyFiles.WriteKeyFile` | udebs/addons/openvpn/source/crypto.c:1213-1282 | the printed file, with nothing cut off for up to seven keys |
| `KeyFiles.FormatHexEx` | udebs/addons/openvpn/source/buffer.c:327-344 | the whole dump comes out whenever it leaves a byte besides the null, otherwise as much of it as goes before the mark that there is more |
| `KeyFiles.DumpFits` | udebs/addons/openvpn/source/buffer.c:331-333 | which it always does when maxoutput is 0 |
| `KeyFiles.DumpAt` | udebs/addons/openvpn/source/buffer.c:327-344 | each byte stands behind those before it and one separator for each full group before its own |
| `Encryption.WireRoundTrip` | udebs/addons/openvpn/source/crypto.c:80-388 | for every mix of cipher, HMAC, IV and packet id form, taking a packet apart gives back the payload and the packet id |
| `Encryption.GenuineComesApart` | udebs/addons/openvpn/source/crypto.c:227-388 | a packet that begins with the HMAC of the rest, whose rest deciphers to an id and a payload, comes apart into these |
| `Encryption.OnlyGenuineComesApart` | udebs/addons/openvpn/source/crypto.c:227-388 | and no other packet does, in particular none whose HMAC is wrong |
| `Encryption.WireFits` | udebs/addons/openvpn/source/crypto.c:394-407 | a payload of legal size becomes a packet within EXPANDED_SIZE |
| `Encryption.WireLength` | udebs/addons/openvpn/source/crypto.c:394-407 | the overhead accounted for is never exceeded |
| `Encryption.FinalizedAccounts` | udebs/addons/openvpn/source/mtu.c:55-83 | a finalized frame has the room that encryption relies on, and finalizing fails iff less than the least MTU is left |
| `Encryption.Headroom` | udebs/addons/openvpn/source/mtu.h:243-250 | the headroom is at least the base and less than an alignment unit more, and aligned |
| `Encryption.PinRoundTrip` | udebs/addons/openvpn/source/packet_id.c:236-284 | a packet id, long or short, is read back |
| `Encryption.LongExtendsShort` | udebs/addons/openvpn/source/packet_id.c:236-284 | the long form is the short form with the time behind it |
| `Bytes.NetworkOrder` | udebs/addons/openvpn/source/packet_id.c:236-284 | words in network order compare like their bytes from left to right |
| `PacketCrypto.Encrypt` | udebs/addons/openvpn/source/crypto.c:80-217 | under the frame accounting no headroom or size check fails and the packet is the wire format of the payload; otherwise it is that, empty, or an assertion fails |
| `PacketCrypto.Decrypt` | udebs/addons/openvpn/source/crypto.c:227-388 | the payload iff the packet comes apart and the replay window accepts its id, which is then recorded; else an empty buffer, and a window that was at most reaped; only an oversized packet may be refused besides. What is accepted begins with the HMAC of its other bytes and carries that payload |
| `PacketCrypto.Verify` | udebs/addons/openvpn/source/crypto.c:242-268 | ok iff the packet begins with the HMAC of the rest of its bytes, which are then what is left |
| `SelfTest.Exchange` | udebs/addons/openvpn/source/crypto.c:80-388 | encrypted and decrypted again, a packet with room for the overhead yields its payload iff the replay window accepts the carried id, or is not asked; the window is then the one with the id recorded, else at most reaped |
| `SelfTest.NextAccepted` | udebs/addons/openvpn/source/packet_id.h:299-312 | the next id of a sender is accepted by a receiver that got all earlier ones, and leaves the two in step |
| `SelfTest.TestCrypto` | udebs/addons/openvpn/source/crypto.c:853-905 | the self-test over every length up to the tun MTU never fails |
| `PacketCrypto.WritePin` | udebs/addons/openvpn/source/packet_id.c:256-284 | the id is put in front iff there is headroom |
| `PacketCrypto.TakePin` | udebs/addons/openvpn/source/packet_id.c:236-254 | the id is taken off, or is not there |
| `PacketBuffers.PacketBuffer.WritePrepend` | udebs/addons/openvpn/source/buffer.h:385-393 | bytes go in front iff the headroom suffices |
| `PacketBuffers.PacketBuffer.Write` | udebs/addons/openvpn/source/buffer.h:375-383 | bytes go behind iff the buffer has room |
| `PacketBuffers.PacketBuffer.Read` | udebs/addons/openvpn/source/buffer.h:472-480 | bytes are taken from the front iff there are as many |
| `PacketBuffers.PacketBuffer.Init` | udebs/addons/openvpn/source/buffer.h:136-144 | an empty buffer at an offset within its capacity |
| `ManagementLines.ChunkingIndependent` | udebs/addons/openvpn/source/manage.c:935-974 | as long as pending bytes and the next filtered chunk have room together, the lines are those of the whole filtered stream, for every chunking |
| `ManagementLines.SameLines` | udebs/addons/openvpn/source/manage.c:935-974 | two chunkings of one stream that both fit give the same lines |
| `ManagementLines.LinesArePrintable` | udebs/addons/openvpn/source/manage.c:1879-1891 | whatever comes in, the lines hold printable characters only |
| `ManagementLines.OverflowDrops` | udebs/addons/openvpn/source/manage.c:1879-1891 | a full buffer that meets one more byte is emptied |
| `ManagementLines.LinesJoin` | udebs/addons/openvpn/source/manage.c:1893-1907 | lines and rest put together again are the text |
| `ManagementLines.CommandLine.Add` | udebs/addons/openvpn/source/manage.c:1879-1891 | what the byte by byte writes leave |
| `ManagementLines.CommandLine.Get` | udebs/addons/openvpn/source/manage.c:1893-1907 | the first whole line without its end, and the excess set aside |
| `ManagementLines.CommandLine.Next` | udebs/addons/openvpn/source/manage.c:1909-1915 | the excess becomes the buffer |
| `ManagementLines.CommandLine.Receive` | udebs/addons/openvpn/source/manage.c:946-974 | one read hands out all whole lines and keeps the rest |
| `ManagementLines.CommandLine.Chomp` | udebs/addons/openvpn/source/buffer.c:382-399 | line ends and nulls are cut off, and the text is terminated |
| `ManagementLines.ChompedEnds` | udebs/addons/openvpn/source/buffer.c:382-399 | all that is cut off are line ends and nulls, and none is left at the end |
| `DdRescue.Rescue.CopyFile` | udebs/addons/backharddi-ng-udeb/source/dd_rescue.c:308-483 | over any faults: input place, output place and transfer count move in lockstep, every byte written is the input byte of its place, the maximum is not passed, the loops end; every byte given up lies in a block of at most hardbs bytes whose own reading came up short, and with sound writes and no interruptions that block holds a byte that cannot be read or goes beyond the end; a fatal read ends the program; otherwise the maximum or the end is reached; with full writes transfers are successes plus failures; without faults and with softbs > hardbs everything up to the maximum or the end of input is copied and nothing is counted as failed; with softbs = hardbs nothing is counted as failed iff the input ends at a block border or not before the maximum |
| `DdRescue.RescueDisk` | udebs/addons/backharddi-ng-udeb/source/dd_rescue.c:308-483 | the whole program on an input that fails at any set of offsets: unless a read fails fatally, every byte with nothing bad and not the end within hardbs of it is in the output at its place, and only input bytes are |
| `DdRescue.Rescued` | udebs/addons/backharddi-ng-udeb/source/dd_rescue.c:308-483 | the same for any stretch copied |
| `DdRescue.Rescue.Turn` | udebs/addons/backharddi-ng-udeb/source/dd_rescue.c:321-481 | one turn of the loop: progress, or one of the returns; what came up short had its reason in the input |
| `DdRescue.Rescue.ShortRead` | udebs/addons/backharddi-ng-udeb/source/dd_rescue.c:346-452 | a short block: fatal errors end the program, a hard block is given up, a large one is cut into hard ones |
| `DdRescue.Rescue.Fallback` | udebs/addons/backharddi-ng-udeb/source/dd_rescue.c:392-452 | the retreat to small blocks and the way back |
| `DdRescue.Rescue.Retry` | udebs/addons/backharddi-ng-udeb/source/dd_rescue.c:436-448 | small blocks stay until the last two large blocks lost no byte, or the maximum or the end is reached |
| `DdRescue.Rescue.HardError` | udebs/addons/backharddi-ng-udeb/source/dd_rescue.c:357-391 | a hard block, never a larger one, is given up and counted; with nosparse what there is of it is written all the same |
| `DdRescue.Rescue.Transfer` | udebs/addons/backharddi-ng-udeb/source/dd_rescue.c:453-475 | a block read is written and counted |
| `DdRescue.Rescue.ReadBlock` | udebs/addons/backharddi-ng-udeb/source/dd_rescue.c:271-283 | the bytes read are those of the input, as many as could be had: short only at the end, at a failed read that was no interruption, or for an error noted earlier; a short block is noted |
| `DdRescue.Rescue.WriteBlock` | udebs/addons/backharddi-ng-udeb/source/dd_rescue.c:285-306 | a prefix of the block is stored, all of it by a good writer; a failed write ends the program or is counted, as abwrerr says; the count is never negative |
| `DdRescue.WithoutLoss` | udebs/addons/backharddi-ng-udeb/source/dd_rescue.c:308-483 | a copy without losses holds every input byte it passed, at its place |
| `DdRescue.ShortInput` | udebs/addons/backharddi-ng-udeb/source/dd_rescue.c:308-483 | with softbs = hardbs = 4 a faultless copy of one byte counts a failure |
| `DdRescue.ShortInputCopied` | udebs/addons/backharddi-ng-udeb/source/dd_rescue.c:308-483 | with hardbs = 1 the byte is copied |
| `DdRescue.CopiedTwice` | udebs/addons/backharddi-ng-udeb/source/dd_rescue.c:308-483 | copying in two stretches is copying |
| `DdRescue.FullTwice` | udebs/addons/backharddi-ng-udeb/source/dd_rescue.c:308-483 | and misses nothing but what the stretches gave up |

## Left out

- PacketIds.PacketIdRec.AddPin: the record of the largest backtrack seen, a debugging statistic, is not kept.
- Packet ids saved across restarts: file input and output; runs start at packet_id_init.
- Fragments.FragmentList.Assemble: the 32-bit map of received fragments is a sequence of 32 booleans, and the header is built by arithmetic on its disjoint fields.
- Fragments.FragmentSender.Outgoing: the buffers that hold the outgoing datagram are large enough, as the frame parameters make them.
- Fragments: the buffer that reassembly hands out is copied, so its later reuse by the next fragment is not modelled; FRAG_TEST packets and wake-up timing are left out.
- Routing.LearnCounted: the cache generation is unbounded, and the learn-address script is a verdict given with each call.
- RouteRuns.ConnectKeeps: the host address and all iroutes of a client are learned as one step, and iroute networks have no host bits, as option_iroute sees to (options.c:833-859).
- MultiContexts.MultiContext.GetInstanceByVirtualAddr: the table of routes is a map, instances are named by numbers, and an instance that is freed leaves the map; that the chained table behaves like a map is proved in HashTables.
- MultiContexts.MultiContext.ReapEntries: the keys are given in the order in which an iterator yields them; that an iterator yields every element once is proved in HashIterators.
- RouteReaper.ReaperCoverage: the bucket of a key is a given number, the same in every pass; a pass meets exactly the keys in the table whose buckets it covers.
- Learning of addresses in tap mode, selection of virtual addresses and the connection scripts.
- HashTables.HashTable.LookupFast: keys and values are numbers, and a key carries its value under the hash function; the hash function itself is not modelled.
- HashIterators.Next: the iterator is a value that each call takes and returns, and locks are left out.
- Mbufs.Bcast: the clients are a sequence of their relevant fields, in the order of the iteration.
- Mbufs.MbufSet.GetQueue: what the instance then does with the data is not modelled.
- KeyFiles.WriteKeyFile: file input and output, and warnings about permissions.
- KeyParser.ReadKeyFile: a read that fails is not modelled.
- Encryption.WireRoundTrip: CBC mode, with an IV as long as a block; the cipher is any function that can be undone and the HMAC any function of fixed length. CFB and OFB modes are left out.
- PacketCrypto.Encrypt: there is a key context, as without one packets pass unchanged; buffers are compared by what they hold between offset and end; that the work buffer and the packet may share memory is not modelled.
- SelfTest.TestCrypto: the random data, the IVs and the clock readings are given, and the packet id is that of a fresh sender and receiver.
- ManagementLines.CommandLine.Receive: no command closes the connection while its lines are handed out.
- DdRescue.Rescue.CopyFile: forward copying without sparse writing between seekable files; reading may fail only at a fixed set of offsets, but need not fail there each time; every access may be interrupted, but only a finite number of times in all; a zero-length write does not fail; progress output does not change errno.
- Delivery.InOrder: the packets of one datagram leave before the next datagram comes; fragment_outgoing only warns when one that is cut comes too early (fragment.c:312-315), and forgets what was left of the old one.
- Sockets, devices, event loops, logging, plugins, signals, compression, TLS and the reliability layer.
