# Verified models of the Bluetooth LE stack and its utilities

This project models the parts of the repository that are algorithms with state, and proves what they
promise. Code that updates state is modelled by methods (of classes, over arrays and linked hooks) that
are proved equal to functions on values; the lemmas are about those functions, over every input, every
run and every interleaving. The code is modelled as it is: where it falls short of its evident intent,
the exact condition under which the intent is met is proved, with a concrete input that shows the rest.

`dafny verify dfyconfig.toml` checks everything.

| File | What it holds |
|---|---|
| `SeggerRtt.dfy` | the RTT ring buffers: 32-bit offset arithmetic, in-place block copies against a byte-at-a-time reference |
| `RttInterleaving.dfy` | the up channel, memory access by memory access, with a host that moves the read offset at any time |
| `GattContainer.dfy` | the two-level container of discovered services and its iterator |
| `ServiceBuilder.dfy` | the event handlers of the GATT discovery engine, as functions and as a class |
| `BuilderInvariants.dfy` | what every event sequence keeps: list nodes, completion callbacks |
| `Peer.dfy` | the peer: an arbitrary well-formed attribute database that batches its answers as it likes |
| `DiscoveryPhases.dfy`, `DescriptorPhase.dfy` | what one response does, in each of the three phases |
| `DiscoverySystem.dfy` | engine and peer together, turn by turn |
| `DiscoveryProgress.dfy` | termination and the order of requests, for any pools and any container |
| `DiscoveryRun.dfy` | whole discoveries with enough nodes: the container at the end, the descriptors, the callback |
| `DiscoveryCompletion.dfy` | which error is reported, in terms of the peer's database |
| `DiscoveryExamples.dfy` | two peers on which a discovery falls short |
| `Observable.dfy` | the intrusive observer list on the heap, with removal during notification |
| `Ltv.dfy`, `AdvertisingData.dfy` | length/type/value records, the encoders, the walk over received data |
| `BitManip.dfy` | bit fields of words of any width |
| `Negotiation.dfy` | the negotiation flags of the central over every event trace |
| `FormatConversion.dfy` | the parser of printf conversion specifications |
| `Wrappers.dfy`, `Numbers.dfy` | `Option`, `Min` |

Where the code departs from its evident intent, with the exact condition:

- RTT: a channel without a buffer reports almost 4 GiB of free space (`NoBuffer`), an empty down buffer reads as a
  full one (`ReadRequestExact`, `EmptyReadIsStale`), and `SEGGER_RTT_ReadPending` computes the free space rather than
  the pending bytes (`ReadPendingExact`).
- Iterator: `discovery_begin` stops on an empty first service (`WalkVisitsAll`) and `decrement` does not
  skip empty services (`DecrementUndoes`).
- Iterator: `handle_range` of the last characteristic, and of no other, reads a declaration handle through
  `discovery_end`, where none is stored (`EndReadExact`); every discovery that ends well computes
  that range, and what is read there alone decides whether the last characteristic is asked for
  descriptors (`EndReadDecides`). The model takes any 16-bit value for it and counts this read as no `Fault`.
- Discovery, nodes: descriptors are built from characteristic nodes (`DescriptorPoolExact`); with too few service
  nodes a characteristic is filed under another service exactly when its own was not placed (`OwnerPlacedExact`).
- Discovery, first and last service: apart from the read through the end, a discovery with enough nodes runs into
  undefined behaviour exactly when the first or the last service of the range has no characteristic there
  (`DiscoveryEnds`).
- Discovery, descriptors: each open characteristic is asked for once, from its own declaration on, and one answer is
  recorded. So it gets all of its attributes exactly when the peer answers with all of them at once
  (`DescriptorsExact`, and `ConfigurationDescriptorLost` for a peer that does not). What is recorded begins with the
  characteristic's declaration (`AttributesBegin`), and for the last characteristic of a service it can go on to the
  declaration of the next service (`AttributesRunOn`).
- Discovery, range: the trimmed range ends with the last attribute of the last answer, which may lie before the last
  characteristic's value (`TrimmedToAnswer`, `TrimmedToDeclaration`).
- Discovery, completion: a complete discovery is reported as `attribute_not_found`, where
  `ble/gattc_service_builder.h:60-62` documents `success`, exactly when no characteristic reaches the end of the range
  and none is open (`CompletionErrorExact`, `CompleteYetNotFound`).
- Discovery, progress: against a peer that reports a handle below the request the same request is made for ever
  (`StuckOnStaleService`).
- Observers: a callback that detaches the next observer leaves the iterator on an unlinked hook
  (`RoundDetachingNext`); a newcomer is notified in the same round unless the last observer's callback attaches it
  (`RoundAttaching`).
- Advertising data: a received length above 31 lets the walk leave the buffer (`ReceivedLengthExact`).
- Format conversion: the `*` of width and precision is never consumed, so such a specification is
  refused (`AsteriskIsRefused`, `AcceptedExact`). `format_length` counts the `%`
  (`utility/format_conversion.h:183-185` says otherwise); the model follows the code.

## Model

| member | source | states |
|---|---|---|
| SeggerRtt.WriteAvailExact | segger/segger_rtt.cc:252-263 | the writer's free space is the capacity less what is queued, exactly when the offset difference fits a signed word |
| SeggerRtt.ReadAvailExact | segger/segger_rtt.cc:265-271 | the reader's count follows the stated "equal offsets mean empty" convention exactly when the buffer is not empty (and the difference fits a signed word) |
| SeggerRtt.NoBuffer | segger/segger_rtt.cc:252-271 | a channel of length 0 reports 2^32 - 1 bytes of free space and nothing to read |
| SeggerRtt.WritePendingCounts | segger/segger_rtt.cc:459-470 | `SEGGER_RTT_WritePending` is the number of bytes written and not read |
| SeggerRtt.ReadPendingExact | segger/segger_rtt.cc:496-505 | `SEGGER_RTT_ReadPending` is the free space, and 0 for an empty buffer; it is the number of pending bytes only for an empty or exactly half-full one |
| SeggerRtt.ReadPendingIsNotPending | segger/segger_rtt.cc:496-505 | one pending byte in a ring of 16 is reported as 14 |
| SeggerRtt.StoreAppends | segger/segger_rtt.cc:284-334 | storing the block pieces appends to the queue, leaves the read offset and all other cells alone, and lowers the free space by as much |
| SeggerRtt.PutAllStores | segger/segger_rtt.cc:284-356 | folding `rtt_putc` over bytes gives the same cells, offsets and count as storing their longest prefix that fits at once |
| SeggerRtt.PutAllAppends | segger/segger_rtt.cc:336-356 | the fold accepts the first min(request, free) bytes and appends exactly them to the queue |
| SeggerRtt.UpBuffer.constructor | segger/segger_rtt.cc:66-88 | a new up buffer is empty with both offsets 0 |
| SeggerRtt.UpBuffer.Write | segger/segger_rtt.cc:284-334 | with two block copies and one publication `rtt_write` leaves the cells, offsets and count that folding `rtt_putc` over the same bytes would |
| SeggerRtt.UpBuffer.CopyIn | segger/segger_rtt.cc:297-319 | the linear piece stands at the write offset, the remainder at the front, every other cell is as before |
| SeggerRtt.UpBuffer.Written | segger/segger_rtt.cc:297-333 | two pieces and the wrapped offset are the byte-at-a-time result |
| SeggerRtt.UpBuffer.PutC | segger/segger_rtt.cc:336-356 | one byte is appended if there is room, else nothing changes and 0 is returned |
| SeggerRtt.GetManyTakes | segger/segger_rtt.cc:369-418 | reading n bytes of a buffer that holds them returns the oldest n, in order, and leaves the others queued |
| SeggerRtt.ReadRequestExact | segger/segger_rtt.cc:369-418 | a read returns the oldest min(request, used) bytes exactly when there are any or none are asked for |
| SeggerRtt.EmptyReadIsStale | segger/segger_rtt.cc:265-271 | an empty ring of four cells hands out four stale bytes |
| SeggerRtt.DrainIndependentOfSplit | segger/segger_rtt.cc:369-441 | however a total of at most `used` bytes is split into reads and single-byte reads, the same bytes come out and the same ring remains |
| SeggerRtt.DownBuffer.constructor | segger/segger_rtt.cc:90-106 | a new down buffer has both offsets 0 |
| SeggerRtt.DownBuffer.Read | segger/segger_rtt.cc:369-418 | the two block copies hand out what byte-at-a-time reading would, move only the read offset, and leave the caller's buffer alone behind the count |
| SeggerRtt.DownBuffer.CopyOut | segger/segger_rtt.cc:381-403 | the linear piece is followed by the remainder from the front, the rest of the caller's buffer is as before |
| SeggerRtt.DownBuffer.TakeOut | segger/segger_rtt.cc:381-403 | the two pieces are what reading byte by byte hands out |
| SeggerRtt.DownBuffer.GetC | segger/segger_rtt.cc:420-441 | the byte at the read offset is returned and the offset moves by one; -1 is never returned, not even for an empty buffer |
| SeggerRtt.ReadCountComputed | segger/segger_rtt.cc:265-271 | the 32-bit computation gives the number of queued bytes, and `length` for none |
| RttInterleaving.PiecesAgree | segger/segger_rtt.cc:289-332 | the two pieces computed from one snapshot of the read offset are one cyclic run of cells of the expected size, and the published offset is behind it |
| RttInterleaving.CopyKeepsPending | segger/segger_rtt.cc:297-317 | a byte stored before publication changes nothing that the host may read, wherever the host has moved since the snapshot |
| RttInterleaving.PublishAppends | segger/segger_rtt.cc:332-333 | publishing the write offset appends exactly the stored bytes to the queue |
| RttInterleaving.ReleaseRemoves | segger/segger_rtt.cc:80-84 | the host's move of the read offset removes exactly the bytes it copied out |
| RttInterleaving.ExecKeepsInv | segger/segger_rtt.cc:284-334 | every step of target and host keeps the invariant: consumed then pending bytes are the accepted ones, stored bytes sit behind the write offset, host copies are a first part of what is pending |
| RttInterleaving.Run | segger/segger_rtt.cc:284-356 | over every sequence of steps of target and host that invariant holds |
| RttInterleaving.FifoOverAllRuns | segger/segger_rtt.cc:284-356 | over every interleaving, the bytes the host released followed by the pending ones are exactly the bytes reported as accepted |
| RttInterleaving.UnreadBytesAreNeverOverwritten | segger/segger_rtt.cc:284-356 | in every reachable state no step changes a cell that holds a published, unread byte |
| RttInterleaving.AcceptedCount | segger/segger_rtt.cc:289-295 | a write accepts what fitted at its snapshot, however far the host moves meanwhile, and publishes exactly that prefix |
| RttInterleaving.SequentialWrite | segger/segger_rtt.cc:284-356 | with the host at rest the interleaved steps of a write amount to the sequential `rtt_write` |
| RttInterleaving.HostTakes | segger/segger_rtt.cc:80-84 | with the target at rest the host takes the oldest bytes, as many as it copies, and frees their cells |
| GattContainer.FindService | ble/gatt_service_container.cc:49-72 | the first service with the greatest handle not above the given one, none if all lie above |
| GattContainer.RangesPartition | ble/gatt_service_container.cc:49-90 | for services in increasing order the handle ranges partition the handles from the first service on, and a handle is found in exactly the service whose range contains it |
| GattContainer.RangeIs | ble/gatt_service_container.cc:80-90 | a service's range runs up to the handle before the next service, or to 0xFFFF |
| GattContainer.IncrementIsLeastAfter | ble/gatt_service_discovery_iterator.cc:39-71 | `++` goes to the least characteristic behind the position, over any number of empty services, or to the end |
| GattContainer.DecrementUndoes | ble/gatt_service_discovery_iterator.cc:73-97 | `--` undoes `++` exactly when no empty service was stepped over |
| GattContainer.WalkVisitsAll | ble/gatt_service_container.cc:161-185 | `discovery_begin` to `discovery_end` visits the concatenation of all characteristic lists exactly when the first service is not empty; else it begins with one position that holds nothing |
| GattContainer.PositionsComplete | ble/gatt_service_container.cc:161-185 | that concatenation holds every characteristic of the container once and nothing else |
| GattContainer.NextOpen | ble/gatt_service_container.cc:187-211 | the first characteristic from the position on with room for an attribute besides declaration and value, with no such one before it |
| GattContainer.EndReadExact | ble/gatt_service_discovery_iterator.cc:110-130 | a handle range depends on what is read through the end position exactly for the last characteristic |
| GattContainer.EndReadDecides | ble/gatt_service_container.cc:195-208 | what is read there alone decides whether the last characteristic counts as open |
| GattContainer.ServiceContainer.FindServiceByHandle | ble/gatt_service_container.cc:49-72 | the loop finds the service that the specification determines |
| GattContainer.ServiceContainer.NextOpenCharacteristic | ble/gatt_service_container.cc:187-211 | the loop over the iterator finds the first open characteristic |
| GattContainer.DiscoveryIterator.Advance | ble/gatt_service_discovery_iterator.cc:39-71 | the recursive in-place `increment` moves to the specified next position and ends |
| GattContainer.DiscoveryIterator.Retreat | ble/gatt_service_discovery_iterator.cc:73-97 | the in-place `decrement`, from the end position and over circular lists |
| ServiceBuilder.ServiceBuilder.Discover | ble/gattc_service_builder.cc:35-54 | the request is made; container, range and callback are taken over only if it was accepted |
| ServiceBuilder.ServiceBuilder.NotifyCompletion | ble/gattc_service_builder.cc:128-134 | the stored callback is cleared, then called; it may start a new discovery at once |
| ServiceBuilder.ServiceBuilder.OnServiceDiscovered | ble/gattc_service_builder.cc:77-178 | the handler's effect on free list, container, outgoing requests and callback in all its branches |
| ServiceBuilder.ServiceBuilder.OnCharacteristicDiscovered | ble/gattc_service_builder.cc:192-347 | the same for characteristics, up to the first descriptor request or the end |
| ServiceBuilder.ServiceBuilder.AddToService | ble/gattc_service_builder.cc:213-249 | a node moves from the free list to the service the handle belongs to, and only if there are both |
| ServiceBuilder.ServiceBuilder.OnDescriptorDiscovered | ble/gattc_service_builder.cc:349-451 | the same for descriptors; the test is on one pool, the node comes from the other |
| ServiceBuilder.ServiceBuilder.VisitFrom | ble/gattc_service_builder.cc:284-325 | the next open characteristic is asked for its descriptors; if there is none the range is trimmed and the callback called |
| ServiceBuilder.ServiceBuilder.TrimDiscoveryHandleRange | ble/gattc_service_builder.cc:561-569 | the range ends with the last handle of the last characteristic |
| BuilderInvariants.PlaceServiceConserves | ble/gattc_service_builder.cc:96-111 | a service response conserves the nodes of service and characteristic pool |
| BuilderInvariants.PlaceCharacteristicConserves | ble/gattc_service_builder.cc:213-249 | so does a characteristic response, with or without owner or free node |
| BuilderInvariants.PlaceDescriptorConserves | ble/gattc_service_builder.cc:367-385 | so does a descriptor response, which never draws on the descriptor pool |
| BuilderInvariants.NodesConserved | ble/gattc_service_builder.cc:35-451 | over every sequence of discoveries into whatever containers and of answers, errors and exhausted pools included, each pool's nodes are conserved between free list and all containers |
| BuilderInvariants.EachNodeInOneList | ble/gattc_service_builder.cc:35-451 | a node that is in one list of one container or pool stays in exactly one |
| BuilderInvariants.FailureReported | ble/gattc_service_builder.cc:120-135 | an error response of any of the three kinds calls the callback with that error and changes nothing else; without a callback it does nothing |
| BuilderInvariants.RefusedStart | ble/gattc_service_builder.cc:42-53 | a refused request changes nothing but the log of calls |
| BuilderInvariants.AcceptedStart | ble/gattc_service_builder.cc:42-53 | an accepted one replaces container, range and callback |
| BuilderInvariants.RefusedStartHarmless | ble/gattc_service_builder.cc:42-53 | a discovery refused while another runs leaves the other one's whole course as it was, over every sequence of answers |
| BuilderInvariants.ReactionFollows | ble/gattc_service_builder.cc:301-307 | what a callback does happens after everything else the event causes, and only if the callback is called |
| BuilderInvariants.RestartIsStart | ble/gattc_service_builder.cc:128-134 | a discovery started from inside the callback replaces range and callback if it is accepted, and else only makes its request |
| BuilderInvariants.AbsenceEndsResponse | ble/gattc_service_builder.cc:113-120 | `attribute_not_found` ends the response whatever else the event carries; for services it leads to the characteristics of the whole range |
| BuilderInvariants.AbsenceOfDescriptors | ble/gattc_service_builder.cc:387-393 | without descriptors the engine goes on to the next open characteristic or finishes |
| BuilderInvariants.DescriptorPoolExact | ble/gattc_service_builder.cc:367-376 | a descriptor response is handled with the intended conservation of descriptor nodes exactly when the descriptor pool is empty |
| BuilderInvariants.DescriptorTakesCharacteristicNode | ble/gattc_service_builder.cc:367-376 | with descriptor node 7 free, the descriptor is built from characteristic node 4 |
| BuilderInvariants.RunOwes | ble/gattc_service_builder.cc:128-134 | over every event sequence, calls made plus call owed of a callback never exceed the times it was registered |
| BuilderInvariants.CalledAtMostOnce | ble/gattc_service_builder.cc:301-307 | a callback registered once, before or during the events, is called at most once, error events and restarts from inside callbacks included |
| DiscoveryPhases.PlacingServices | ble/gattc_service_builder.cc:96-111 | any batch of services extends the container to the peer's services up to the last of the batch |
| DiscoveryPhases.OwnerFound | ble/gattc_service_builder.cc:213-217 | a characteristic is put under exactly the service whose peer range contains it |
| DiscoveryPhases.PlacesPrefix | ble/gattc_service_builder.cc:96-111 | of a batch of services the first ones are placed, as many as there are nodes |
| DiscoveryPhases.OwnerPlacedExact | ble/gattc_service_builder.cc:213-243 | a filed characteristic lies under its own service exactly when that service was placed, and else under an earlier one |
| DiscoveryPhases.MisfiledCharacteristic | ble/gattc_service_builder.cc:213-243 | with one service node the characteristic at 5 of the service at [4, 9] is filed under the one at [1, 3] |
| DiscoveryPhases.SharesGrow | ble/gattc_service_builder.cc:213-243 | placing the next characteristic moves every service's share of the peer's characteristics on to the next cut |
| DiscoveryPhases.PlacingCharacteristics | ble/gattc_service_builder.cc:213-243 | any batch of characteristics extends every service to the peer's characteristics up to the last of the batch |
| DiscoveryPhases.CharacteristicsDone | ble/gattc_service_builder.cc:275-282 | at the end of the characteristic phase the container is what the peer has in the range, each characteristic under its service |
| DescriptorPhase.RangeAt | ble/gatt_service_discovery_iterator.cc:110-130 | the range asked for at a characteristic that is not the last ends before the next declaration |
| DescriptorPhase.ClosedVisited | ble/gatt_service_container.cc:187-211 | characteristics that are passed over have no room for descriptors |
| DescriptorPhase.DescriptorResponse | ble/gattc_service_builder.cc:349-451 | one answered descriptor request records exactly the batch at its characteristic, changes nothing else, and goes on to a later one or finishes |
| DescriptorPhase.AttributesBegin | ble/gatt_service_discovery_iterator.cc:124-126 | what is asked for begins with the characteristic's own declaration |
| DescriptorPhase.AttributesRunOn | ble/gatt_service_discovery_iterator.cc:124-126 | for the last characteristic of a service it includes the declaration of the next service |
| DescriptorPhase.AllDescriptorsExact | ble/gattc_service_builder.cc:410-450 | a passed characteristic has all of its attributes exactly when there were descriptor nodes, it was open, and the one answer held them all |
| DescriptorPhase.TrimmedToAnswer | ble/gattc_service_builder.cc:561-569 | the answer for the last characteristic ends the discovery, and the range then ends with the last attribute of that answer |
| DescriptorPhase.TrimmedToDeclaration | ble/gatt_characteristic.h:123-137 | against a peer that answers one attribute at a time the trimmed range ends with the last declaration, before its value |
| DiscoveryProgress.TurnProgress | ble/gattc_service_builder.cc:137-176 | from any live state with a request, whatever the pools and the container, an answer leaves less to do (handles to request, then characteristics to ask for) and the next request comes after |
| DiscoveryProgress.EveryDiscoveryEnds | ble/gattc_service_builder.cc:77-451 | every discovery, with any pools and into any container, ends after at most two responses for each handle of the range and one for each characteristic in the container or with a node |
| DiscoveryProgress.EveryTurnAdvances | ble/gattc_service_builder.cc:137-176 | at every turn of every discovery phases never go back, requests within a phase advance, and continuations stay in the range despite the 16-bit `+ 1u` |
| DiscoveryProgress.ErrorEndsDiscovery | ble/gattc_service_builder.cc:120-135 | an error in answer to any request of any discovery ends it: the callback is called once, with that error, and what was found stays |
| DiscoveryRun.TurnIsGood | ble/gattc_service_builder.cc:77-451 | every answered request keeps the invariant by which the container is the peer's part requested so far |
| DiscoveryProgress.RequestsAdvance | ble/gattc_service_builder.cc:275-346 | into an empty container, with any pools, every request within a phase begins at a strictly later handle, descriptor requests included |
| DiscoveryProgress.FilesLast | ble/gattc_service_builder.cc:213-243 | a characteristic behind all others is filed behind all others, so that the container stays in handle order |
| DiscoveryRun.DiscoveryEnds | ble/gattc_service_builder.cc:77-451 | for every well-formed peer and every batching, with enough nodes and an empty container, a discovery ends: in a `Fault` exactly when the first or last service of the range has no characteristic there, and else with the peer's services and characteristics in order, the batches answered for the descriptors, the range trimmed to the last handle found, and the callback called once |
| DiscoveryRun.DescriptorsExact | ble/gattc_service_builder.cc:410-450 | of the characteristics that are not the last, exactly the open ones whose one answer held all attributes end with all of them |
| DiscoveryRun.DescriptorsOfUniformPeer | ble/gattc_service_builder.cc:410-450 | against batches of k exactly the open characteristics with at most k attributes (or one) are complete |
| DiscoveryExamples.ConfigurationDescriptorLost | ble/gattc_service_builder.cc:410-450 | a peer that answers one attribute at a time: the configuration descriptor is never found |
| DiscoveryCompletion.OpenExact | ble/gatt_service_container.cc:199-207 | a found characteristic is open exactly when the peer's database leaves room before the next one, or before `stray` for the last |
| DiscoveryCompletion.CompletionErrorExact | ble/gattc_service_builder.cc:301-306 | whatever the batching, a complete discovery reports `attribute_not_found` exactly when no characteristic of the peer reaches the end of the range and none is open, and `success` otherwise |
| DiscoveryCompletion.UnansweredExact | ble/gattc_service_builder.cc:251-258 | a characteristic phase ends with an empty answer exactly when no characteristic reaches the end of the range |
| DiscoveryExamples.CompleteYetNotFound | ble/gattc_service_builder.cc:301-306 | a peer found completely and reported as `attribute_not_found`, however it batches |
| DiscoveryRun.LastAnswerReported | ble/gattc_service_builder.cc:301-306 | whatever is read through the end, the error reported is that of the last answer |
| DiscoveryRun.NeverWrong | ble/gattc_service_builder.cc:77-451 | at every moment of a discovery the container is the part of the peer's database that was asked for so far |
| DiscoveryRun.WholeDatabaseFound | ble_central/ble_gap_connection.cc:281-292 | over the range the central asks for, every service is found with all of its characteristics |
| DiscoveryRun.ContinuationAdvances | ble/gattc_service_builder.cc:137-141 | against any response a continuation stays in the range, and it advances exactly when the reported handle is not below the request |
| DiscoveryRun.StuckOnStaleService | ble/gattc_service_builder.cc:137-176 | a peer that n times reports a service below the requested range is asked the same thing n times, for every n |
| Observable.NotifiesAllExact | utility/observable.h:95-109 | everybody attached at entry is notified, once and in order, exactly when no callback detaches somebody still waiting |
| Observable.NotificationLeaves | utility/observable.h:95-109 | what is left is the list without those whom a notified observer detached |
| Observable.NotifyAllPromise | utility/observable.h:95-109 | when callbacks detach only themselves or earlier observers, all are notified in order and exactly the detached are gone |
| Observable.Observable.constructor | utility/observable.h:66-77 | a new list is empty: its header points to itself |
| Observable.Observable.Attach | utility/observable.h:80-84 | the observer is linked in last, in the circular list on the heap |
| Observable.Observable.Unlink | utility/observable.h:86-93 | exactly this observer leaves the ring, the others keep their order and links |
| Observable.Observable.Detach | utility/observable.h:86-93 | a linked observer leaves the list, an unlinked one changes nothing |
| Observable.Observable.GetObserverCount | utility/observable.h:111-115 | walking the ring counts the attached observers |
| Observable.Observable.NotifyAll | utility/observable.h:95-109 | the loop over the linked list, which changes under it, notifies and leaves whom the reference says |
| Observable.Observable.RoundDetachingNext | utility/observable.h:101-108 | if a callback detaches the next observer, and whoever else, the iterator is left on a hook that leads nowhere |
| Observable.Observable.RoundAttaching | utility/observable.h:101-108 | a newcomer is put behind all who wait; if the last observer's callback attaches it, the iterator is past it already |
| Ltv.DecodeEncodeAll | ble/gap_advertising_data.h:116-124 | stepping by length + 1 over encoded records yields the records |
| Ltv.EncodeAllDecode | ble/gap_advertising_data.h:116-124 | if every record met is whole, the bytes are the encoding of those records |
| Ltv.WellFormedExact | ble/gap_advertising_data.h:116-124 | a buffer is a sequence of records exactly when the walk meets no broken one |
| Ltv.LittleEndianRoundTrip | ble/ltv_encode.h:65-69 | a scalar is recovered from its little-endian bytes |
| Ltv.ScalarAt | ble/ltv_encode.h:65-69 | every element of an encoded array is recovered from its place |
| AdvertisingData.EncodersRoundTrip | ble/ltv_encode.cc:15-108 | after any encoder calls the buffer holds at most 31 bytes and walking it yields exactly the records of the accepted calls, in order |
| AdvertisingData.AfterAllIs | ble/ltv_encode.cc:15-108 | from any well-formed contents the accepted calls append their encodings and the others nothing |
| AdvertisingData.TextBytes | ble/ltv_encode.cc:26-42 | the bytes of a string record, written exactly if they fit |
| AdvertisingData.CStringBytes | ble/ltv_encode.cc:44-68 | the bytes of a C-string record, cut off at the terminator or the end of the buffer |
| AdvertisingData.AddressBytes | ble/ltv_encode.cc:70-108 | the nine bytes of an address record: 8, 0x1B, type or random flag, then the six octets |
| AdvertisingData.ArrayBytes | ble/ltv_encode.h:49-93 | the bytes of an integer record, written exactly if they fit |
| Ltv.ScalarByte | ble/ltv_encode.h:65-69 | byte k of element i stands at its place, least significant first |
| AdvertisingData.AddressReadBack | ble/ltv_encode.cc:90-108 | walking a buffer with one address yields type 0x1B, the address type and the octets |
| AdvertisingData.Buffer.constructor | ble/gap_advertising_data.h:173-176 | a new buffer is empty |
| AdvertisingData.Buffer.Received | ble/gap_advertising_data.h:185-197 | a report of at most 31 bytes is copied whole, of a longer one the first 31; the end is set from the unclamped length |
| AdvertisingData.Buffer.PushBack | ble/gap_advertising_data.h:203 | one byte is appended |
| AdvertisingData.Buffer.EncodeText | ble/ltv_encode.cc:26-42 | the record of the whole string is appended if it fits, else 0 is returned and nothing changes |
| AdvertisingData.Buffer.EncodeCString | ble/ltv_encode.cc:44-68 | the characters up to the terminator, as far as they fit, become one record; the length byte filled in afterwards is right |
| AdvertisingData.Buffer.EncodeAddress | ble/ltv_encode.cc:70-108 | type or random flag and six octets become one device-address record if it fits |
| AdvertisingData.Buffer.EncodeArray | ble/ltv_encode.h:49-93 | the scalars' little-endian bytes become one record if it fits |
| AdvertisingData.ReceivedLengthExact | ble/gap_advertising_data.h:185-197 | every length byte read lies inside the array, whatever was received, exactly for received lengths of at most 31 |
| AdvertisingData.WalkAdvances | ble/gap_advertising_data.h:116-150 | however malformed the bytes, the walk strictly advances inside them and takes at most as many steps |
| AdvertisingData.WalkSteps | ble/gap_advertising_data.h:116-124 | each step leads over the length byte and as many bytes as it says, whatever its value, until the end is reached |
| AdvertisingData.WalkDecodes | ble/gap_advertising_data.h:116-152 | the iterator's positions are those at which the decoder sees its records |
| AdvertisingData.Buffer.Walk | ble_central/ble_gap_connection.cc:219-220 | the loop bounded by `<` takes exactly those positions |
| BitManip.MaskBits | utility/bit_manip.h:33-60 | for every width and position, out of range or not, the mask covers exactly the field |
| BitManip.DecrementIsMinusOne | utility/bit_manip.h:42-43 | the bit-level decrement is subtraction of 1, wrapping at zero |
| BitManip.SetBits | utility/bit_manip.h:122-151 | a written field holds the inserted bits, all other bits stay |
| BitManip.SetKeepsOutside | utility/bit_manip.h:122-151 | what is below and above the field stays, and as numbers the inserted value modulo 2^width takes the place of the field |
| BitManip.GetBits | utility/bit_manip.h:167-195 | reading gives the field's bits from position 0, zeros above |
| BitManip.GetAfterSet | utility/bit_manip.h:122-195 | reading back a written field inside the word gives the inserted value modulo 2^width |
| BitManip.SignedGetAfterSet | utility/bit_manip.h:122-195 | reading back a written field of a signed type gives the low bits as a two's-complement integer |
| BitManip.SignedRoundTripExact | utility/bit_manip.h:122-195 | a signed number comes back exactly when it lies in [-2^(w-1), 2^(w-1)) |
| BitManip.GetAfterSetExact | utility/bit_manip.h:122-195 | a field that sticks out of the word round-trips exactly when the bits that are lost are zero |
| BitManip.WriteBack | utility/bit_manip.h:122-195 | writing back what was read is the identity, for signed and unsigned types |
| BitManip.DisjointSetsCommute | utility/bit_manip.h:122-151 | writes to disjoint fields commute |
| BitManip.SignExtendValue | utility/bit_manip.h:77-106 | extending from bit s gives the two's-complement integer of the s + 1 low bits |
| BitManip.SignExtendArithmetic | utility/bit_manip.h:77-106 | for x below 2^(s+1) that is x below 2^s and x - 2^(s+1) otherwise |
| BitManip.SignedFieldValue | utility/bit_manip.h:187-194 | `value_get` of a signed type is the arithmetic value of the field |
| Negotiation.NegotiationState.SetMtuExchangePending | ble/gap_connection_negotiation_state.cc:62-81 | one flag is set; the observer is called exactly when this clears the last pending flag |
| Negotiation.NegotiationState.SetConnectionParametersPending | ble/gap_connection_negotiation_state.cc:83-100 | the same for the connection parameters |
| Negotiation.NegotiationState.SetLinkLayerPending | ble/gap_connection_negotiation_state.cc:102-119 | the same for the link layer |
| Negotiation.NegotiationState.SetPhyLayerPending | ble/gap_connection_negotiation_state.cc:121-138 | the same for the PHY |
| Negotiation.NegotiationState.ClearAllPending | ble/gap_connection_negotiation_state.cc:34-40 | all flags are cleared, nobody is called |
| Negotiation.CentralConnection.Connect | ble_central/ble_gap_connection.cc:33-46 | the handle is set and exactly the two flags of the central become pending, with no completion in between |
| Negotiation.CentralConnection.Disconnect | ble/gap_connection.cc:21-26 | handle and flags are reset silently |
| Negotiation.CentralConnection.ConnectionParameterUpdate | ble_central/ble_gap_connection.cc:65-70 | the flag is cleared; if it was the last, discovery starts on the current connection |
| Negotiation.CentralConnection.ExchangeMtuResponse | ble_central/ble_gattc_observer.cc:120-133 | the same for the MTU response |
| Negotiation.AnyExact | ble/gap_connection_negotiation_state.cc:25-32 | an update is pending exactly if one of the four flags is set |
| Negotiation.FlagsMeaning | ble/gap_connection_negotiation_state.cc:62-100 | in every trace a flag of an open session is pending exactly until its event has happened in that session, and the handle is its connect's; outside of sessions the handle is invalid and nothing is pending |
| Negotiation.DisconnectInvalidates | ble/gap_connection.cc:21-26 | after a disconnect the handle is 0xFFFF and all flags are cleared |
| Negotiation.FiresExactly | ble_central/ble_gap_connection.cc:281-292 | discovery starts at exactly the event by which both the parameter update and the MTU response have arrived for the first time in the session, on that session's connection |
| Negotiation.OncePerConnect | ble/gap_connection_negotiation_state.cc:62-100 | between two starts of discovery there is a connect |
| Negotiation.SilentAfterDisconnect | ble/gap_connection.cc:21-26 | nothing starts after a disconnect before the next connect |
| FormatConversion.Parser.ParseText | utility/format_conversion.cc:84-133 | the field-updating parser computes the specified conversion and reads nothing past the terminator |
| FormatConversion.Parser.ParseFlags | utility/format_conversion.cc:135-175 | all flags up to the first other character take effect, the last sign flag winning |
| FormatConversion.Parser.ParseFieldWidth | utility/format_conversion.cc:177-196 | digits are consumed as the width, an asterisk is noted but not consumed |
| FormatConversion.Parser.ParsePrecision | utility/format_conversion.cc:198-218 | the same for the precision behind a point |
| FormatConversion.Parser.ParseLengthModifiers | utility/format_conversion.cc:220-272 | the longest length modifier is consumed |
| FormatConversion.Parser.ParseShortInt | utility/format_conversion.cc:274-286 | all digits are consumed; the value is computed in 16 bits |
| FormatConversion.ShortOfIs | utility/format_conversion.cc:274-286 | the 16-bit value is the number written reduced to a `short`, equal to it exactly up to 32767 |
| FormatConversion.GrammarParsed | utility/format_conversion.cc:84-133 | a text of the grammar is parsed to the fields its parts denote |
| FormatConversion.ParsedGrammar | utility/format_conversion.cc:84-133 | an accepted text is of the grammar, split where the parser stopped |
| FormatConversion.SpecifierTable | utility/format_conversion.h:54-63 | exactly the nineteen specifiers are accepted; precision defaults to 1 for the six of integers, 6 for the eight of floating point, 0 otherwise; a pointer is 8 digits padded with zeros |
| FormatConversion.SpecifierPlace | utility/format_conversion.cc:84-133 | without `%` nothing is consumed; with it the specifier is the last character consumed, accepted or not |
| FormatConversion.FlagsExact | utility/format_conversion.cc:135-175 | flags count in any order and number; of the sign flags the last one wins |
| FormatConversion.ModifierTable | utility/format_conversion.cc:220-272 | each length modifier is recognised from its own text in front of any specifier |
| FormatConversion.AcceptedExact | utility/format_conversion.cc:84-133 | a text is accepted, with n characters consumed, exactly when its first n characters are of the grammar |
| FormatConversion.AsteriskIsRefused | utility/format_conversion.cc:182-185 | `%*d` and `%.*f` are refused |
| FormatConversion.RoundTrip | utility/format_conversion.cc:84-286 | whatever follows it, a rendered specification is parsed back to all its fields and defaults, with exactly its own length consumed |
| FormatConversion.NumbersRecoveredExact | utility/format_conversion.cc:177-218 | width and precision come back exactly when they are at most 32767 |

## Left out

- Undefined behaviour: a null container, popping an empty list, or dereferencing a position that holds no characteristic is the outcome `Fault`, except the read through `discovery_end` named above; the handlers of the class are called only where the outcome is not `Fault`.
- The last characteristic of a container: the end of its descriptor request comes from `stray`, so of its descriptors only that they are a first part of the peer's attributes from its declaration on is claimed.
- DiscoveryRun.DiscoveryEnds: only for pools large enough and an empty container; for any pools and containers there are `EveryDiscoveryEnds`, `EveryTurnAdvances`, `NodesConserved` and `OwnerPlacedExact`.
- DiscoveryCompletion.CompletionErrorExact: for a `stray` that stays the same during the discovery, as memory behind the list that nobody writes does; for one that changes there is `LastAnswerReported`.
- Negative answers of the vendor stack to continuation requests: the code logs them and waits; the model makes the request and nothing more.
- A new discovery from inside a completion callback is the callback's last act; into another container it is the start event that follows (`RestartIsStart`).
- SeggerRtt.WriteAvailExact: buffers are at least one byte and at most 2 GiB long elsewhere in the model, the sizes for which the signed 32-bit difference is right; of channels of length 0 only the two counts are modelled (`NoBuffer`).
- SeggerRtt.DownBuffer.GetC: characters are unsigned, as on the ARM target; with signed characters the byte 0xFF would read as -1.
- Target-side RTT calls are serialised by their critical sections; the interrupt masking, the channel allocation and the placing of the signature are not part of this model.
- The order of memory: stored bytes reach memory before the store to the write offset, which is not volatile (segger/segger_rtt.cc:297-332); a compiler or bus that reorders the two is not modelled.
- An observer detached through a list it is not linked in is not modelled.
- Observable.Observable.NotifyAll: callbacks detach observers; attaching is modelled for one round (`RoundAttaching`), not for a whole notification. No callback may detach the next observer, where the code would follow a null pointer (`RoundDetachingNext`).
- AdvertisingData.Buffer.EncodeCString: requires the terminator that every C string has.
- AdvertisingData.Buffer.EncodeArray: the product of count and element size does not overflow `size_t` in the model.
- AdvertisingData.WalkAdvances: about length bytes; the type byte of a record at the very end of the data may lie behind it, and a zero-length record has no type of its own.
- The overload `push_back(ltv_data)` and the choice of a peer by name in `advertising_report`.
- BitManip: words are sequences of bits of any width; conversions between integer types of different widths on insertion are not modelled.
- The negotiation timer hooks, and link-layer and PHY negotiation, whose flags the central never sets; their setters are modelled.
- `SignPosition` and `POINTER_DIGITS` take the 16-bit position type and the 32-bit pointers of the target.
- `relationship_discovered` and `attribute_discovered`, UUIDs and values of descriptors, and characteristic properties: empty, unused or never stored.
- The vendor stack, its event demultiplexing, security, GATT server and writes, logging and output, ADC, timers, `double_extract_parts`: foreign calls, I/O and tables.
