# Fleece: verified model of the world store, its gossip and repair, and the planner

This project models the C core of Fleece in Dafny and proves what that core guarantees. Four parts:

- **The replicated "world" store.** A fixed table of 128 slots keyed by (name hash, owner), a per-node logical
  clock, last-writer-wins merging by (timestamp, origin), tombstones that are kept, an order-independent digest of the
  live view, delta exporters and the frame importer. `Store.StateManager` runs on an array of slots in place;
  `Slots` gives the meaning of each operation on slot values, `SlotMaps` shows that the slots represent one map per
  owner, whatever was compacted before, and `Lww` says what each operation does to that map. `Swarm` is a transition
  system of nodes and a network that loses, duplicates, delays and reorders *encoded* frames; `Heal` is its healing by
  full syncs between all nodes.
- **Gossip and repair.** `Bounded`, `GossipRun` and `Drain` treat the byte-capped exporter and its watermark over whole
  runs; `Repair` the index / diff / fetch handshake and what it certifies; `FullSync` the full export; `Schedule`,
  `TxQueue` and `Runtime` the per-peer flags, the retry, quiet-period and per-tick limits and the deferred queue.
  `EndToEnd` runs a full sync and a repair round through the real encoders, queues and parsers of two nodes.
- **The planner.** `Planner` says what a plan means; `Frontier` is the search as a machine over plain values, with its
  theorems; `Heap`, `Visited` and `Search` are the search in place, a run of that machine; `Goals` and `Brain` are goal
  ranking and the replanning loop; `PlanBlob` and `PlanTables` the plan blob and the tables it is written from and
  loaded into, `PointBuffer` the buffer a curve's points are loaded through.
- **The goal auction.** `Auction` is the C decision logic of claiming the best goal.

`Counterexamples` and `Detour` are concrete runs that show where a property fails.
`Cbor` is the small codec all byte formats share, `Wire` the gossip frame, `Control` the repair frames; `Formats` fixes
the bytes and hash values that round trips alone leave open.
`dafny verify dfyconfig.toml` checks everything.

## Assumptions

Each is a precondition or a type where it is used.

- Node ids are distinct, nonzero and never reused with a reset clock (`Swarm`: one node per id, clocks only rise).
- The 64-bit clock does not wrap and stays below 2^64 - 1 where the exporter uses that value as "none left"; ticks do
  not wrap.
- Allocations succeed; data, frames and blobs are shorter than 2^32 bytes. Sizes that wrap before they reach the
  allocator are modelled as they wrap (`PointBuffer.Room`, `Visited.TableSize`).
- Stored names have at most 63 bytes. The key is the hash of the whole name, but the slot keeps only 63 bytes
  (src/state/fleece_state_manager.c:304, 500), so the key of a longer name is not the hash of what travels.
- A merge that needs a slot finds one (`RoomFor`) where the claim is about the merged map; `Accepted` and `Room`
  say what happens otherwise.
- Callbacks (preconditions, effects, goals, costs, scores, utilities) are total functions; costs, scores and
  utilities are reals. A double in a plan blob is a real with an exact 64-bit pattern, and casting an integer to a
  double may round (`Cbor.Ieee`).

## Findings

Properties a reader might expect that the code does not have, each with an input and the exact condition; the last
three entries are smaller observations.

- `compact` clears a slot only when it moved it, so an unnamed tombstone at or behind the number of kept slots stays
  marked as used behind the count. `SlotMaps.RawKeyLoss` is the run set 1, set 2, remove 2, compact, set 2, set 3, after
  which the live field 2 is gone. `SlotMaps.CompactPacked` says when compaction leaves such a slot, both ways;
  `SlotMaps.UpsertRefines` says what a later write loses: exactly the field in the slot at the count, always one of the
  node itself, never a shared one. All results about the shared stream hold on such tables too.
- A quiet node's backlog empties within 2n exports if and only if the records of each timestamp fit one frame together
  (`Drain.DrainsIff`). `Counterexamples.TieNeverDrains` merges two records of one timestamp that do not fit 320 bytes:
  the backlog is never empty again.
- A merged record is relayed by delta gossip if and only if it arrives above the watermark (`GossipRun.RelayedIff`).
  `Counterexamples.MergedBelowNeverSent` is a run from a fresh node in which a record arrives at timestamp 3 when the
  watermark is 5: it is stored, and no run ever sends it. The comment at src/runtime/fleece_runtime.c:703-725 reads as if
  tracking carried timestamps settled this.
- An empty index diff in both directions does not mean equal views: `Counterexamples.TieReached` and
  `Counterexamples.DeleteReached` are runs of two fresh nodes to a tie under two origins and to a delete the other side
  never heard. `Repair.CertifiedExactly` says when it does, both ways.
- `rank_goals` with a buffer smaller than the number of candidates ranks the first ones by index. That is the best of
  the full ranking if and only if every candidate that fits is at least as useful as every one left out
  (`Goals.SmallBufferExact`); `Goals.SmallBufferMisses` has two goals and room for one.
- No plan returned does not mean that none exists, not even within the depth limit: in `Detour.PlanMissed` the goal state
  is generated first on a cheap detour, one action too deep, and stays closed when the short way reaches it. The size of
  the visited table, 2 * max_nodes + 1, is computed in 32 bits: with max_nodes = 2^31 it is 1, and `Detour.TableWraps`
  finds no plan for a single action. When the budgets cover the reachable states, a plan is returned if and only if one
  exists (`Search.FindPlan`): at most max_nodes, fewer than max_iters and fewer than the table's slots, and at most
  max_plan_depth + 1 unless no plan can run past the depth limit. Below 2^31 nodes the table is never the limit
  (`Frontier.TableSuffices`).
- Loading a plan blob is not in range for every input: the buffer for a curve's points is sized in 64 bits without a
  check, so n claimed points get room for n modulo 2^60. `PointBuffer.NotAllInRange` is a blob of 29 bytes with one curve
  that claims 2^60 + 1 points and holds two. A point list is loaded in range if and only if what is readable of it fits
  that room (`PointBuffer.InRangeIff`); this covers every blob whose counts are below 2^60
  (`PointBuffer.SmallCountsInRange`) and every blob that loads successfully (`PointBuffer.GoodBlobsInRange`).
- Liveness probes are the same request as gap-driven ones and are not spaced from them (`Schedule.ProbesCoincide`).
- The comment above the index reply (src/state/fleece_state_manager.c:1079) shows two elements; the code writes three, with
  the sender's id in the middle, and the parser demands three. The model follows the code.
- The entry of a utility curve in a plan blob announces seven elements and holds six (src/planner/fleece_planner.c:1185);
  `Formats.KnownCurve` shows the bytes. The loader expects just that.

## Model

| member | source | states |
|---|---|---|
| Cbor.HeadRoundTrip | src/state/fleece_cbor.c:32-123 | for every major type and every 64-bit argument, reading a written head at any position of any buffer gives the same head and stops right behind it |
| Cbor.HeadShortest | src/state/fleece_cbor.c:13-50 | every head the reader accepts is at least as long as the written form of the same value, and the written form is the only accepted one of that length |
| Cbor.FromBigEndianBound | src/state/fleece_cbor.c:104-121 | an n-byte argument is below 256^n, so the accumulation never leaves 64 bits |
| Cbor.BigEndianRoundTrip | src/state/fleece_cbor.c:32-50 | the argument bytes of any value that fits give that value back |
| Cbor.BoolRoundTrip | src/state/fleece_cbor.c:71-73 | a written boolean is read back by the head reader as major 7 with argument 20 or 21 |
| Cbor.StringRoundTrip | src/state/fleece_cbor.c:55-69 | a byte or text string is read back whole, and the reader stops behind its payload |
| Cbor.NumRoundTrip | src/state/fleece_cbor.c:75-149 | a double comes back by value, as an integer when it is whole and below 2^64 and as its bit pattern otherwise; the length is the measured one |
| Cbor.WriteHead | src/state/fleece_cbor.c:32-50 | writes exactly the encoded head behind the prefix, in uint_size bytes, and keeps the prefix |
| Cbor.WriteArg | src/state/fleece_cbor.c:43-48 | the shifting loop writes the argument highest byte first |
| Cbor.WriteString | src/state/fleece_cbor.c:55-69 | writes head and payload behind the prefix in bytes_size bytes |
| Cbor.WriteNum | src/state/fleece_cbor.c:75-85 | writes exactly the encoded number in num_size bytes |
| Cbor.ReadHeadLoop | src/state/fleece_cbor.c:87-123 | the accumulating reader, on arbitrary bytes and positions, is the head reader of the round trip; no read is out of range |
| Hashing.HashNameLoop | src/state/fleece_state_manager.c:87-94 | the hashing loop computes 32-bit FNV-1a of the whole name |
| Hashing.EntryDigest | src/state/fleece_state_manager.c:109-141 | hashing an entry piece by piece is one hash over its canonical byte string |
| Hashing.EntryBytesInjective | src/state/fleece_state_manager.c:128-141 | for names without byte 0xFF, the hashed bytes determine name, origin, timestamp and data |
| Formats.KnownHashes | src/state/fleece_state_manager.c:87-115 | the published FNV-1a values of the empty text and of "a", in 32 and in 64 bits |
| Formats.KnownEntry | src/state/fleece_state_manager.c:128-141 | the bytes one entry contributes to the digest, in the order and widths the code hashes them |
| Lww.TopUnique | src/state/fleece_state_manager.c:620-638 | two maps that both hold the winning version of every key of one coherent set of versions are equal |
| Lww.MergeKeepsTop | src/state/fleece_state_manager.c:620-638 | merging one more version keeps the map at the winners of everything taken in; without a free slot it changes nothing |
| Lww.MergeAllKeepsTop | src/state/fleece_state_manager.c:620-638 | the same for any sequence of records, whichever of them found a slot |
| Lww.AllAccepted | src/state/fleece_state_manager.c:276-310 | with a slot for every new key, no record of a sequence is turned away and the slots still suffice afterwards |
| Lww.MergeAllGrows | src/state/fleece_state_manager.c:620-638 | no sequence of merges lowers a stored version or the clock |
| Lww.MergeAllClock | src/state/fleece_state_manager.c:620-638 | merging keeps every stored timestamp at most the local clock |
| Lww.AcceptedClock | src/state/fleece_state_manager.c:625-638 | every version that reached the table is at most the clock afterwards |
| Lww.LocalWriteBeats | src/state/fleece_state_manager.c:494-524 | a shared set or remove never lowers a stored version and keeps timestamps at most the clock |
| Lww.MergeAllIsJoin | src/state/fleece_state_manager.c:620-638 | merging all records of another map, in any order and with repeats, gives the pointwise (timestamp, origin) maximum |
| Lww.JoinLaws | src/state/fleece_state_manager.c:620-638 | that maximum is idempotent, associative, and commutative on coherent versions |
| Slots.PutSlot | src/state/fleece_state_manager.c:276-310 | writing one slot replaces whatever field it held by the new one, in the maps of both owners, and touches nothing else |
| SlotMaps.UpsertRefines | src/state/fleece_state_manager.c:276-310 | on every table the operations can reach: fails exactly when a new key finds no slot, else writes one slot and replaces exactly what it held; what is lost that way is a field of the node itself, and only in a table compaction left unpacked |
| SlotMaps.UpsertMaps | src/state/fleece_state_manager.c:276-310 | an accepted upsert is one update of the owner's map and leaves every other map alone, up to lost fields of the node itself in an unpacked table |
| SlotMaps.SetSharedRefines | src/state/fleece_state_manager.c:494-501 | the slot version of a shared set acts on the shared map as specified and leaves every other owner's map alone |
| SlotMaps.BuryRefines | src/state/fleece_state_manager.c:357-377 | a remove replaces a live entry by a tombstone at the next clock value, does nothing without one, and touches no other owner |
| SlotMaps.RemoveSharedRefines | src/state/fleece_state_manager.c:503-524 | a shared remove is a new write by the deleter and keeps the table well-formed |
| SlotMaps.CasRefines | src/state/fleece_state_manager.c:526-550 | the compare of compare-and-set, read off the slots, is the compare on the map: the live bytes equal the expected ones, or nothing is live when none are expected |
| Lww.CasOnce | src/state/fleece_state_manager.c:526-550 | of two calls with the same expectation, the first of which writes other bytes, the second changes nothing; the first found the expected bytes |
| Lww.CreateOnce | src/state/fleece_state_manager.c:526-550 | of two calls that expect nothing, the first of which writes, the second changes nothing |
| SlotMaps.RawReadBack | src/state/fleece_state_manager.c:312-328 | on any well-formed table, a raw write that finds a slot is read back live with its bytes and the new clock value |
| SlotMaps.MergeRefines | src/state/fleece_state_manager.c:602-638 | merging into the slots, packed or not, is the last-writer-wins merge of the owner's map and leaves every other map alone; the node's own stream is refused without effect |
| SlotMaps.MergeValid | src/state/fleece_state_manager.c:602-638 | a merge keeps names, sizes, timestamps and owners well-formed |
| SlotMaps.MergeEachRefines | src/state/fleece_state_manager.c:964-1011 | a whole record loop on the slots is the whole merge on the map |
| SlotMaps.CompactPacked | src/state/fleece_state_manager.c:385-403 | after compaction the occupied slots are again exactly the first ones if and only if no unnamed tombstone sat at or behind the number of kept slots |
| SlotMaps.CompactView | src/state/fleece_state_manager.c:385-403 | in every owner's map compaction adds and changes nothing and keeps all live entries and named tombstones |
| SlotMaps.CompactCount | src/state/fleece_state_manager.c:385-403 | the count after compaction is the number of live fields and named tombstones, and these come first |
| SlotMaps.CompactShared | src/state/fleece_state_manager.c:385-403 | the shared map, tombstones included, is unchanged by compaction |
| SlotMaps.CompactValid | src/state/fleece_state_manager.c:385-403 | compaction always leaves a table every later operation can work on |
| SlotMaps.CompactNamed | src/state/fleece_state_manager.c:385-403 | a table filled through the named API only is left exactly as it was |
| SlotMaps.RawKeyLoss | src/state/fleece_state_manager.c:385-403 | the run set 1, set 2, remove 2, compact, set 2, set 3 of raw keys loses the live field 2 |
| Digest.DigestOfSlots | src/state/fleece_state_manager.c:143-151 | the sum over the slots is a function of the live named view alone: slot order, history, tombstones and unnamed entries do not matter |
| Wire.RecordRoundTrip | src/state/fleece_state_manager.c:714-728 | a record written into any buffer is parsed back unchanged and the parser stops right behind it |
| Wire.RecordsRoundTrip | src/state/fleece_state_manager.c:714-728 | so is any list of records of one stream |
| Wire.FrameRoundTrip | src/state/fleece_state_manager.c:654-734 | parsing an encoded frame gives sender, owner, digest and exactly its records; a node's own frame and sender 0 are refused |
| Wire.LongestPrefix | src/state/fleece_state_manager.c:964-1011 | for arbitrary bytes and any claimed count, the parsed records are the longest readable prefix, at most one per byte, and "complete" means exactly the claimed count |
| Wire.ReadRecordLoop | src/state/fleece_state_manager.c:964-1006 | the field-by-field reader, total on arbitrary bytes, is the record parser |
| Wire.WriteRecord | src/state/fleece_state_manager.c:714-728 | writes exactly the encoded record in the measured number of bytes |
| Wire.WriteHeader | src/state/fleece_state_manager.c:699-712 | writes exactly magic, version, sender, owner, mark, digest and count |
| Control.IndexReplyRoundTrip | src/state/fleece_state_manager.c:1081-1123 | an index of up to 128 entries is never cut by the parser: origin and all entries come back |
| Control.ValueRequestRoundTrip | src/runtime/fleece_runtime.c:207-227 | a request of up to 64 keys comes back whole |
| Control.IndexRequestRoundTrip | src/runtime/fleece_runtime.c:207-227 | an index request comes back with its origin |
| Formats.KnownControl | src/runtime/fleece_runtime.c:207-226 | the exact bytes of an index request, an index reply and a value request: magic, version, tag, origin, items |
| Formats.KnownGossip | src/state/fleece_state_manager.c:703-731 | the exact bytes of a shared record, of a tombstone of a node's own stream and of a frame header |
| Control.WriteEntry | src/state/fleece_state_manager.c:1112-1118 | an index entry takes at most the 15 bytes budgeted for it |
| InsertionSort.InsertArray | src/planner/fleece_planner.c:922-931 | the shifting inner loop inserts one element and leaves the rest of the array alone |
| InsertionSort.SortArray | src/state/fleece_state_manager.c:819-834 | the in-place sort computes the specified sort of the first n elements only |
| InsertionSort.SortIsStable | src/state/fleece_state_manager.c:819-834 | for every weak order the result is sorted and elements that compare equal keep their order |
| InsertionSort.SortMultiset | src/planner/fleece_planner.c:525-533 | the result is a permutation of the input |
| InsertionSort.SortIdentity | src/planner/fleece_planner.c:922-931 | sorting a sorted sequence changes nothing |
| Bounded.SortedIsOrder | src/state/fleece_state_manager.c:806-834 | collecting and sorting lists every eligible slot once, least recently exported first, then oldest first |
| Bounded.ExportSafe | src/state/fleece_state_manager.c:850-875 | one export moves the watermark only forward and never past the clock; every eligible record it passes was carried if and only if it is not so that timestamp 2^64 - 1 is carried and is all that is left out |
| Bounded.ExportedBasics | src/state/fleece_state_manager.c:836-875 | an eligible record left out of a frame is still eligible for the new watermark, and nothing else becomes eligible |
| Bounded.MarkKeepsView | src/state/fleece_state_manager.c:851 | the export marks are not part of the shared map |
| Bounded.TiesKept | src/state/fleece_state_manager.c:850-875 | above the new watermark the records of each timestamp stay as they were |
| Drain.DrainStep | src/state/fleece_state_manager.c:819-875 | while each timestamp's records fit one frame, every export of a quiet node lowers the number of overdue plus eligible records |
| Drain.StuckStep | src/state/fleece_state_manager.c:850-875 | records of one timestamp that do not fit one frame together are never all passed by the watermark |
| Drain.DrainsIff | src/state/fleece_state_manager.c:806-875 | a quiet node's n eligible records are gone after 2n exports if and only if each timestamp's records fit one frame; otherwise the backlog is nonempty after any number of exports |
| Drain.DistinctTimestampsFit | src/state/fleece_state_manager.c:850-875 | pairwise distinct timestamps always meet that condition, whatever the record sizes |
| Drain.QuietStepExists | src/state/fleece_state_manager.c:806-875 | every quiet state has a next one, so the claims about runs are about real runs |
| Counterexamples.TiedIsReached | src/state/fleece_state_manager.c:620-638 | two merges into a fresh node lead to two records of one timestamp |
| Counterexamples.TieTooLarge | src/state/fleece_state_manager.c:836-875 | together they do not fit a frame of 320 bytes |
| Counterexamples.TieNeverDrains | src/state/fleece_state_manager.c:850-875 | so the backlog is nonempty after any number of exports |
| GossipRun.StepKeeps | src/runtime/fleece_runtime.c:679-731 | every interleaved step (shared write or delete, merge, private write or delete by name or raw key, other streams, any compaction, export) keeps the invariant and never lowers the watermark |
| GossipRun.NothingLost | src/runtime/fleece_runtime.c:679-731 | over every run the watermark rises, stays at most the clock, and each version written here or merged above the watermark and still stored was carried in a sent frame or lies above the watermark |
| GossipRun.NeverBelowWatermark | src/runtime/fleece_runtime.c:679-731 | over every run nothing at or below the watermark is carried again |
| GossipRun.RelayedIff | src/runtime/fleece_runtime.c:679-731 | in every later state that still stores a merged record, it was carried or waits above the watermark if and only if it arrived above the watermark; otherwise it is never carried |
| GossipRun.VersionsGrow | src/state/fleece_state_manager.c:385-403 | over every run of a node's slot table, raw-key fields and compactions included, no shared version is replaced by one it does not lose to |
| Counterexamples.MergedBelowNeverSent | src/runtime/fleece_runtime.c:679-731 | a reachable state of watermark 5 where a record of timestamp 3 is stored on arrival and no run ever sends it |
| GossipRun.FreshInv | src/state/fleece_state_manager.c:162-184 | a new manager satisfies the invariant these runs start from |
| Frames.TakenSize | src/state/fleece_state_manager.c:678-693 | the sizing pass over the marked slots is the exact length of the encoded records |
| Frames.PickProperties | src/state/fleece_state_manager.c:1139-1176 | a value reply takes only wanted entries, at least one if any is wanted, and a second one only within the cap |
| Frames.PickMaximal | src/state/fleece_state_manager.c:1139-1176 | a wanted entry is left out only behind a taken one and only if it exceeds the cap next to what was taken before it |
| Frames.PickAll | src/state/fleece_state_manager.c:1139-1176 | all wanted entries travel in one reply if and only if they fit the cap together or there is at most one |
| Frames.PickBound | src/state/fleece_state_manager.c:1139-1176 | a value reply never holds more records than keys were asked for |
| Frames.CarriedFrame | src/state/fleece_state_manager.c:836-902 | the frame of a bounded export holds exactly the carried records, and their bytes are the packed load |
| Repair.MissingIsGap | src/runtime/fleece_runtime.c:246-289 | the keys requested after an index reply are all keys the responder holds live and this node lacks or holds older, and none are requested exactly when there is no such key, despite the cap of 64 |
| Repair.MissingExact | src/runtime/fleece_runtime.c:246-260 | the diff asks for every lacking entry when there are at most 64, and otherwise for the first 64 in index order |
| Repair.AsksForAll | src/runtime/fleece_runtime.c:246-260 | against the slots of a responder it asks for as many keys as are live there and missing or older here, at most 64, and for exactly those when there are no more |
| Repair.RoundProgress | src/runtime/fleece_runtime.c:246-289 | against a static responder a lossless round strictly shrinks that set until it is empty, despite the 64-key and 320-byte caps |
| Repair.OneRound | src/runtime/fleece_runtime.c:246-289 | one lossless round leaves nothing missing if and only if at most 64 keys are and their values fit one reply, or only one is |
| Repair.RepairTerminates | src/runtime/fleece_runtime.c:365-399 | as many rounds as that set has keys reach an empty diff |
| Repair.RoundOverWire | src/runtime/fleece_runtime.c:325-401 | the three frames of a round survive encoding and parsing exactly |
| Repair.CertifiedKey | src/runtime/fleece_runtime.c:246-289 | with empty diffs both ways, keys live on both sides have equal timestamps, and the live views agree at a key if and only if it is neither tied under two origins nor deleted on one side at a timestamp no older |
| Repair.CertifiedExactly | src/state/fleece_state_manager.c:1212-1217 | with empty diffs both ways, the live views are equal if and only if no key is of those kinds, and then the digests are equal |
| Repair.CertifiedYetDifferent | src/state/fleece_state_manager.c:1081-1123 | two families of pairs of maps with empty diffs both ways and different live views |
| Counterexamples.TieReached | src/runtime/fleece_runtime.c:246-289 | two fresh nodes that both write a field before hearing of each other end in such a pair |
| Counterexamples.DeleteReached | src/runtime/fleece_runtime.c:246-289 | so do a write, its delivery and a delete the writer never hears of |
| FullSync.FullExportIsWorld | src/state/fleece_state_manager.c:654-734 | a full shared export holds exactly the stored versions, tombstones included |
| FullSync.FullSyncIsJoin | src/state/fleece_state_manager.c:925-1021 | encoding, parsing and merging another node's full export makes the receiver's map the pointwise maximum of the two |
| FullSync.NotBehindIff | src/state/fleece_state_manager.c:1015-1018 | afterwards the receiver shows what the sender shows, so the digests agree and "behind" is false, if and only if it held nothing extra and live and nothing newer except deletes of deletes |
| EndToEnd.SyncShared | tests/test_crdt.c:41-48 | export by one manager and import by another: the receiver's shared map becomes the join, the call succeeds, and the behind flag is false when the live views then agree |
| EndToEnd.RepairRound | src/runtime/fleece_runtime.c:325-434 | one lossless handshake through both runtimes, queues and flushes included: values are fetched exactly when a live key is missing or older, and then what is missing strictly shrinks; nothing is missing afterwards exactly when the values fit one reply; the responder's store is untouched |
| EndToEnd.RepairAll | src/runtime/fleece_runtime.c:325-434 | repeating the round until nothing is fetched ends with no live key missing or older, after at most as many fetching rounds as there were such keys |
| EndToEnd.Answer | src/runtime/fleece_runtime.c:310-401 | a control frame handled in one tick is answered by exactly one frame, or none, in the next tick's flush, to the node named in the frame or else to the mesh |
| EndToEnd.RunsAreWellformed | src/state/fleece_state_manager.c:494-638 | every state of a gossip run meets the conditions the synchronisation results ask of slots |
| Swarm.StepKeepsInv | src/state/fleece_state_manager.c:494-638 | every step of a swarm keeps: a version number names one write, each node holds the winners of what it took in, frames carry only logged versions |
| Swarm.RunKeepsInv | src/state/fleece_state_manager.c:494-638 | so does every run |
| Swarm.StrongConvergence | src/state/fleece_state_manager.c:494-638 | in every reachable state (timestamp, origin) identifies one write, and two nodes that took in the same versions hold the same map, whatever was dropped, duplicated, relayed or reordered |
| Swarm.StepGrows | src/state/fleece_state_manager.c:385-638 | no step, compaction included, lowers the version of a stored key on any node |
| Swarm.RunGrows | src/state/fleece_state_manager.c:385-638 | no run does |
| Swarm.DeletesLast | src/state/fleece_state_manager.c:503-524 | a tombstone is replaced by a live value only when that value strictly beats it |
| Swarm.CasAuthorHeld | src/state/fleece_state_manager.c:526-550 | the author of a version written by a compare-and-set held exactly the expected bytes live just before, or nothing live when none were expected |
| Swarm.ClocksDominate | src/state/fleece_state_manager.c:620-638 | every stored timestamp is at most the node's clock, in every state the invariant covers |
| Swarm.CausesBeat | src/state/fleece_state_manager.c:494-550 | a write made after merging a version beats it, transitively through any chain of relays |
| Swarm.FullExportJoins | src/state/fleece_state_manager.c:654-734 | in a swarm, delivering a full export joins the two maps |
| Swarm.PairwiseSyncAgrees | tests/test_crdt.c:41-48 | in any swarm, after the four steps of a two-way full sync (send, deliver, send, deliver) the two nodes hold the same map, the join of what they held |
| Heal.AllPairsAgree | tests/test_crdt.c:413-421 | after each node of a swarm took in a full export of every other, in any order and with repetitions, all hold the same map: the winners of everything all of them held |
| Heal.SyncStep | tests/test_crdt.c:41-48 | one full sync joins the source's map into the target's and touches no other node |
| Store.StateManager.constructor | src/state/fleece_state_manager.c:162-184 | a new manager is empty for every owner, packed, at tick 0 and has never written |
| Store.StateManager.FindSlot | src/state/fleece_state_manager.c:251-259 | the scan returns the first slot of (key, owner), or the capacity |
| Store.StateManager.UpsertField | src/state/fleece_state_manager.c:276-310 | updates the table in place as specified, and reports failure exactly when nothing was written |
| Store.StateManager.SetRaw | src/state/fleece_state_manager.c:312-328 | a raw-key set is one local write under the next clock value, 0 exactly when it found a slot, and then the bytes are read back live; empty data is refused without effect |
| Store.StateManager.RemoveRaw | src/state/fleece_state_manager.c:357-377 | buries the live field of a raw key or returns -1 without effect |
| Store.StateManager.SetShared | src/state/fleece_state_manager.c:494-501 | stores name, bytes, this node as origin and the next clock value under the name's key and nothing else, or -1 with the map unchanged; leaves every other owner's map alone, and records the write tick |
| Store.StateManager.RemoveShared | src/state/fleece_state_manager.c:503-524 | a live field becomes a tombstone of this node at the next clock value and keeps its name; when nothing is live, -1 and the store is unchanged |
| Store.StateManager.SetSharedCas | src/state/fleece_state_manager.c:526-550 | writes only over the expected bytes, or over nothing live when none are expected; returns 1 exactly on a mismatch, and then the store is unchanged |
| Store.CasTwice | src/state/fleece_state_manager.c:526-550 | of two calls with one expectation and nothing in between, if the first replaces the expected bytes by others the second returns 1 and leaves the first one's value and the clock |
| Store.StateManager.MergeField | src/state/fleece_state_manager.c:602-638 | merges one record into the owner's map: the newer version is stored, on equal timestamps the one of the larger origin, and the clock rises to the arriving timestamp; keeps the table well-formed, leaves other maps alone, and returns 0 exactly when the stream is not the node's own, the record is usable and its key has or finds a slot |
| Store.StateManager.MoveKept | src/state/fleece_state_manager.c:385-403 | the compaction loop moves kept slots to the front in order and clears exactly what it moved |
| Store.StateManager.CompactFields | src/state/fleece_state_manager.c:385-403 | keeps every live entry and named tombstone of every owner and the whole shared map, counts exactly those and holds them first, always leaves a well-formed table, and a packed one exactly under the stated condition |
| Store.StateManager.StreamDigest | src/state/fleece_state_manager.c:143-151 | the digest loop computes the digest of the owner's live view |
| Store.StateManager.MaxTimestamp | src/state/fleece_state_manager.c:1042-1050 | the highest timestamp of the selected slots, 0 if there is none |
| Store.StateManager.SharedAtLeast | src/state/fleece_state_manager.c:1212-1217 | true exactly when the shared key is stored, tombstone or not, at that timestamp or later |
| Store.StateManager.Select | src/state/fleece_state_manager.c:672-693 | the sizing pass marks the selected slots and measures them |
| Store.StateManager.WriteTaken | src/state/fleece_state_manager.c:714-728 | writes the marked slots' records behind the header and nothing else |
| Store.StateManager.WriteFrame | src/state/fleece_state_manager.c:695-733 | fills an allocation of the measured size with exactly the encoded frame |
| Store.StateManager.ExportSince | src/state/fleece_state_manager.c:654-734 | the frame holds exactly the owner's named fields newer than the cutoff, with the digest of its live view and its highest timestamp |
| Store.StateManager.PackingOrder | src/state/fleece_state_manager.c:806-834 | lists every eligible slot once in packing order |
| Store.StateManager.Pack | src/state/fleece_state_manager.c:836-855 | packs the longest prefix that fits the cap, at least one record, and marks exactly those slots with the clock |
| Store.StateManager.LowestLeft | src/state/fleece_state_manager.c:867-870 | the lowest timestamp left out |
| Store.StateManager.ExportBounded | src/state/fleece_state_manager.c:770-902 | the frame carries exactly the packed records, is at most cap + 3 bytes or carries one record, and the watermark is the clamped one |
| Store.StateManager.CountNewShared | src/state/fleece_state_manager.c:904-913 | the number of eligible records |
| Store.StateManager.ExportIndex | src/state/fleece_state_manager.c:1081-1123 | an index reply of every live shared entry, within its allocation |
| Store.StateManager.ExportByHash | src/state/fleece_state_manager.c:1138-1210 | a gossip frame of the picked entries, at most 320 + 3 bytes or one record, within its allocation |
| Store.BudgetSlack | src/state/fleece_state_manager.c:776-782 | the header budgets of both bounded exporters are the real header plus the slack of the heads counted at their widest, and no more |
| Store.StateManager.ImportRecords | src/state/fleece_state_manager.c:964-1011 | the record loop terminates on arbitrary bytes and merges exactly the longest readable prefix |
| Store.StateManager.Import | src/state/fleece_state_manager.c:925-1021 | total on arbitrary bytes: a refused frame changes nothing, an accepted one joins exactly its readable records into one stream, and the behind flags compare digests after the merge |
| Schedule.ServeProperties | src/runtime/fleece_runtime.c:486-533 | at most two gap-driven requests per tick, none outside a quiet period, each to a different due peer, and a due peer is passed over only when both are used up |
| Schedule.ServeTargets | src/runtime/fleece_runtime.c:486-533 | exactly which fields of which peer a pass changes |
| Schedule.ServeProbes | src/runtime/fleece_runtime.c:523-531 | probes go once to each known peer not heard for a hundred ticks, and to no other |
| Schedule.RetriesSpaced | src/runtime/fleece_runtime.c:496-515 | over every run, unanswered gap-driven requests to one peer are at least eight ticks apart; liveness probes are not counted |
| Schedule.ProbesCoincide | src/runtime/fleece_runtime.c:519-526 | a start and a probe to one peer in one tick, and a probe one tick after an unanswered request |
| Schedule.ServedWithinEight | src/runtime/fleece_runtime.c:486-533 | with at most sixteen peers in need and no replies or probes, a due peer is asked within eight quiet ticks |
| Schedule.AskedWithinSixteen | src/runtime/fleece_runtime.c:486-533 | with at most sixteen peers in need, each is asked within sixteen quiet ticks, even if a request to it has just gone out |
| TxQueue.FlushSendsReady | src/runtime/fleece_runtime.c:310-319 | a flush sends exactly the ready transmissions and keeps exactly the others |
| TxQueue.SentExactlyOnce | src/runtime/fleece_runtime.c:291-319 | what is queued during a tick is sent exactly once, by the next tick's flush, never by this one's |
| TxQueue.SentNextTick | src/runtime/fleece_runtime.c:291-319 | over every run of ticks, each tick sends exactly what the tick before queued, each once |
| Runtime.OthersUntouched | src/runtime/fleece_runtime.c:165-193 | handling a frame of one peer leaves every other peer's entry as it was |
| Runtime.HeardMeans | src/runtime/fleece_runtime.c:404-434 | after a gossip frame the sender's entry, found or taken from the free ones, is heard now and needs repair exactly if the digests differ or it did and a handshake is in flight; without an entry and a free one nothing changes |
| Runtime.AnsweredMeans | src/runtime/fleece_runtime.c:246-289 | after an index reply the peer's handshake is over, and it still needs repair exactly if it did and something is to be fetched |
| Runtime.HandlersKeepOnePerPeer | src/runtime/fleece_runtime.c:165-193 | no handler gives a peer a second entry |
| Runtime.AskedAfterMismatch | src/runtime/fleece_runtime.c:404-533 | a peer whose digest differed is asked for its index within eight undisturbed quiet ticks, unless a request younger than that is unanswered, and within sixteen in any case, with at most sixteen peers in need |
| Runtime.HandlersAllowed | src/runtime/fleece_runtime.c:404-434 | the receive handlers never drop a peer or its request time, which the scheduling claims rely on |
| Runtime.Runtime.constructor | src/runtime/fleece_runtime.c:535-571 | starts with no peers, an empty queue, tick 0 and watermark 0 |
| Runtime.Runtime.TargetFor | src/runtime/fleece_runtime.c:165-193 | finds the peer's entry, or admits it in the first free one, or reports that there is none |
| Runtime.Runtime.EnqueueTx | src/runtime/fleece_runtime.c:291-308 | the frame takes the first free slot, ready next tick; a full queue drops it and counts it |
| Runtime.Runtime.FlushPending | src/runtime/fleece_runtime.c:310-319 | sends the ready frames in slot order and frees their slots |
| Runtime.Runtime.ServeAll | src/runtime/fleece_runtime.c:494-532 | the loop is the specified pass over the peers |
| Runtime.Runtime.SendResyncRequests | src/runtime/fleece_runtime.c:486-533 | flushes, then asks at most two peers, none within five ticks of a local shared write; each needs repair and has no unanswered request younger than eight ticks, and such a peer is passed over only when two others are asked; probes go exactly to peers silent for a hundred ticks |
| Runtime.Runtime.ImportAndTrack | src/runtime/fleece_runtime.c:404-434 | imports; after a complete frame the sender's entry is heard now and in need exactly when the shared digest differs from the merged live view, or it was and a handshake is in flight; after any other frame no entry changes |
| Runtime.Runtime.MissingKeys | src/runtime/fleece_runtime.c:246-270 | the diff loop collects the first 64 keys missing or older here |
| Runtime.Runtime.HandleIndexReply | src/runtime/fleece_runtime.c:385-400 | ends the peer's handshake, queues one request for the missing keys or none, and keeps the repair flag exactly if it was set and something is missing |
| Runtime.Runtime.HandleControl | src/runtime/fleece_runtime.c:325-401 | for arbitrary bytes: exactly which reply is queued, to the node named in the frame or else to the source |
| Runtime.Runtime.SendDelta | src/runtime/fleece_runtime.c:687-731 | one delta carries only eligible records, at least one, and everything its new watermark passes |
| Runtime.Runtime.SendBeacon | src/runtime/fleece_runtime.c:733-745 | a beacon carries the digest and no record and marks nothing |
| Runtime.Runtime.GossipPhase | src/runtime/fleece_runtime.c:679-748 | a delta exactly when due and something is new, else a beacon exactly when due; the watermark moves only with a delta and only past carried records |
| Heap.RootIsLeast | src/planner/fleece_planner.c:403-418 | in heap order the first entry is a minimum |
| Heap.MinHeap.Push | src/planner/fleece_planner.c:383-401 | keeps heap order and adds exactly the new entry |
| Heap.MinHeap.SiftDown | src/planner/fleece_planner.c:407-416 | restores heap order with the last entry in place of the root, same multiset |
| Heap.MinHeap.Pop | src/planner/fleece_planner.c:403-418 | removes exactly one entry, a minimum; reports an empty heap |
| Visited.AbsentBefore | src/planner/fleece_planner.c:326-345 | under the probing chain invariant, a free slot reached before the key means the key is absent |
| Visited.InsertKeeps | src/planner/fleece_planner.c:326-345 | filling the first free slot of the probe sequence, with wraparound, keeps the chain invariant and adds one key |
| Visited.NoneFree | src/planner/fleece_planner.c:326-345 | a probe sequence that comes back around without a hit has visited the whole table |
| Visited.ProbeIsModulo | src/planner/fleece_planner.c:328-332 | up to 2^31 slots the probe index with its 32-bit sum is addition modulo the capacity |
| Visited.FullCount | src/planner/fleece_planner.c:326-345 | a full table holds as many distinct keys as it has slots |
| Visited.FreeCount | src/planner/fleece_planner.c:326-345 | a table with a free slot holds fewer keys than slots |
| Visited.VisitedSet.Add | src/planner/fleece_planner.c:326-345 | returns true exactly when the key was absent and a slot was free, and then adds exactly that key |
| Planner.PathSound | src/planner/fleece_planner.c:640-672 | the parent walk of any node replays to its state with its recorded cost and length, within the depth cap |
| Planner.StepCost | src/planner/fleece_planner.c:561-569 | each step of a plan adds its authored cost at the state where it is applied, or 1 if there is none or a negative one |
| Planner.UnpricedCost | src/planner/fleece_planner.c:561-569 | a plan whose actions have no usable cost costs its length |
| Planner.ExtractPlan | src/planner/fleece_planner.c:640-672 | the parent walk terminates and yields that path, first action first |
| Search.TryAction | src/planner/fleece_planner.c:674-722 | one action tried in place does to node list, heap and visited table what the machine says |
| Search.TryActions | src/planner/fleece_planner.c:674-722 | so does trying every action of a node |
| Frontier.TryKeeps | src/planner/fleece_planner.c:674-722 | one action adds at most one well-linked node, an open entry with it and a key with either; the successor of a tried action is recorded unless the depth limit or a full table can have dropped it |
| Frontier.RunKeeps | src/planner/fleece_planner.c:626-722 | over every run every node is reachable, linked, and expanded or open, and each pop took one open entry |
| Frontier.BestFirst | src/planner/fleece_planner.c:614-705 | every popped node has the least sum of its cost and the number of targets it misses among all open nodes, so no open node promises to undercut a goal that is found |
| Frontier.ReachableIsNode | src/planner/fleece_planner.c:626-722 | when nothing was cut and every node was expanded, every reachable state is a node |
| Frontier.NothingSolves | src/planner/fleece_planner.c:626-722 | then no plan of any length exists |
| Frontier.FoundIff | src/planner/fleece_planner.c:571-729 | when the node, iteration, depth and table limits cover the reachable states, a run ends with a goal if and only if a plan exists |
| Frontier.TableSuffices | src/planner/fleece_planner.c:308-313 | below 2^31 nodes the visited table has more slots than the node budget |
| Frontier.OneSlotStays | src/planner/fleece_planner.c:308-345 | with a table of one slot no run ever generates a second node |
| Detour.OnlyRun | src/planner/fleece_planner.c:689-713 | on the detour problem every run makes the same four expansions |
| Detour.PlanMissed | src/planner/fleece_planner.c:689-713 | a two-action plan exists, the depth limit is two, and no plan is returned |
| Detour.TableWraps | src/planner/fleece_planner.c:308-313 | a node budget of 2^31, two reachable states, a one-action plan, and no plan is returned |
| Search.FindPlan | src/planner/fleece_planner.c:571-729 | the search is a run of the machine; a returned plan replays from the start with every precondition holding where applied, meets every goal, its cost is the sum of step costs and its length at most the cap; at most max_nodes + action_count nodes; with budgets and a table that cover the reachable states a plan is returned if and only if one exists |
| Goals.Collect | src/planner/fleece_planner.c:509-523 | collects the candidates in index order until the buffer is full |
| Goals.RankGoals | src/planner/fleece_planner.c:509-534 | the open goals above the threshold as a stable descending ranking and a permutation; one is left out only when the buffer is full, and then all that are in have a lower index |
| Goals.SmallBufferExact | src/planner/fleece_planner.c:509-534 | a small buffer gives the head of the full ranking if and only if every candidate that fits is at least as useful as every one left out |
| Goals.SmallBufferMisses | src/planner/fleece_planner.c:509-534 | two goals and room for one: the ranking holds the worse, the selection returns the better |
| Goals.SelectGoal | src/planner/fleece_planner.c:487-501 | a best open goal above the threshold, the first of equals; none exactly when no open goal is above the threshold |
| Goals.HeadIsBest | src/planner/fleece_planner.c:487-534 | the head of the full ranking is such a best goal |
| Goals.BestIsUnique | src/planner/fleece_planner.c:487-534 | there is only one, so ranking and selection agree |
| Goals.RankingUnique | src/planner/fleece_planner.c:525-533 | the ranking is determined by the utilities and the candidates |
| Brain.ReplanChoice | src/embedded/fleece_goap_js.c:684-731 | the first ranked goal that is not cooling down and has a plan is chosen; none exactly when there is no such goal; every goal ranked before it that was not cooling down now is, until tick + cooldown, and no other cooldown changes |
| Brain.FailedSearchCools | src/embedded/fleece_goap_js.c:684-731 | a search without a plan starts the goal's cooldown |
| Brain.SearchesSpaced | src/embedded/fleece_goap_js.c:684-731 | over every history, after a search that found no plan the planner is not run for that goal again before the cooldown has passed |
| Brain.GoapBrain.constructor | src/embedded/fleece_goap_js.c:684-731 | a new brain is idle with no cooldowns |
| Brain.GoapBrain.ReplanNow | src/embedded/fleece_goap_js.c:684-731 | the loop leaves exactly that choice, its action and those cooldowns in place |
| Brain.GoapBrain.Tick | src/embedded/fleece_goap_js.c:787-860 | which events a tick fires, what it returns and what it leaves: run on, finish and replan, abort at the tick limit and replan, stop on a failing body, or fail without a snapshot or commit |
| Brain.RunToEnd | src/embedded/fleece_goap_js.c:787-860 | over any sequence of ticks and answers a watched action completes, is aborted or fails within max_action_ticks ticks of its start |
| Auction.ClaimTable.FindBest | src/embedded/fleece_embedded.c:809-857 | the scan finds an eligible goal of highest score, the first of equals, or that there is none |
| Auction.ClaimTable.ClaimBest | src/embedded/fleece_embedded.c:749-900 | the whole new table: a taken claim holds this node and its score, a goal given up is released, a kept one is refreshed exactly when asked to and no switch was attempted, every other claim stays; the returned key is owned by this node and within the margin of every eligible goal; a goal is given up only for one better by more than the margin; a live peer's claim is overwritten only when beaten by more than the margin; at most one claim is held |
| Auction.SecondBidder | src/embedded/fleece_embedded.c:749-900 | two passes: a goal one node has just taken is not taken from it by a node that counts it as live and does not score it higher by more than the margin |
| PlanBlob.TextRoundTrip | src/planner/fleece_planner.c:1147-1253 | a text is read back unchanged wherever it stands |
| PlanBlob.NameRoundTrip | src/planner/fleece_planner.c:1228-1239 | so is the planner's name, up to the longest that fits its field |
| PlanBlob.TableRoundTrip | src/planner/fleece_planner.c:1151-1209 | a counted table is read back whole if each entry is |
| PlanBlob.ActionRoundTrip | src/planner/fleece_planner.c:1155-1171 | an action comes back with every field, preconditions and effects in order |
| PlanBlob.GoalRoundTrip | src/planner/fleece_planner.c:1173-1182 | a goal comes back with every field |
| PlanBlob.UtilityRoundTrip | src/planner/fleece_planner.c:1184-1198 | a curve comes back with its points in order: sorting on load is the identity on sorted points |
| PlanBlob.MissionRoundTrip | src/planner/fleece_planner.c:1200-1208 | a mission comes back with its goals in order |
| PlanBlob.BlobRoundTrip | src/planner/fleece_planner.c:1096-1476 | loading a serialized planner rebuilds its name and all four tables, for every planner the add functions can build |
| Formats.KnownAction | src/planner/fleece_planner.c:1152-1168 | the exact bytes of an action, every field in its place |
| Formats.KnownGoal | src/planner/fleece_planner.c:1170-1180 | the exact bytes of a goal, every field in its place |
| Formats.KnownCurve | src/planner/fleece_planner.c:1182-1197 | the exact bytes of a utility curve: a header of seven, then six elements |
| Formats.KnownMission | src/planner/fleece_planner.c:1199-1208 | the exact bytes of a mission |
| Formats.KnownBlob | src/planner/fleece_planner.c:1150-1224 | the exact bytes of an empty planner: magic, version, name and four empty tables |
| PlanBlob.LoadedOk | src/planner/fleece_planner.c:1255-1476 | whatever the bytes, what is read from them could have been built by the add functions; it is what the loader stores when its point stores are in range |
| PlanBlob.ReloadStable | src/planner/fleece_planner.c:1096-1476 | saving what was read from any bytes and reading it again changes nothing |
| PointBuffer.LoadPoints | src/planner/fleece_planner.c:1393-1410 | the loop over an allocated buffer reads exactly the points, and is in range exactly when the buffer holds every point it stores |
| PointBuffer.RoomIsModulo | src/planner/fleece_planner.c:1398 | the allocation for n points has room for n modulo 2^60 |
| PointBuffer.InRangeIff | src/planner/fleece_planner.c:1393-1410 | every store of a point list is in range if and only if at most n modulo 2^60 of its n claimed points are readable, which counts below 2^60 always meet |
| PointBuffer.SmallCountsInRange | src/planner/fleece_planner.c:1378-1419 | a blob whose reached curves all claim fewer than 2^60 points is loaded in range |
| PointBuffer.GoodBlobsInRange | src/planner/fleece_planner.c:1255-1476 | so is every blob that loads successfully |
| PointBuffer.PointsOverrun | src/planner/fleece_planner.c:1393-1410 | 2^60 + 1 claimed and two readable points: two are stored, the buffer holds one |
| PointBuffer.NotAllInRange | src/planner/fleece_planner.c:1378-1419 | a blob whose loading reaches that list |
| PlanTables.BodySizeExact | src/planner/fleece_planner.c:1096-1145 | the measured size is the exact length of the written body |
| PlanTables.MeasureList | src/planner/fleece_planner.c:1100-1143 | a measuring loop adds up a counted table |
| PlanBlob.PointsSortedOk | src/planner/fleece_planner.c:922-931 | adding a curve keeps its points and puts them in ascending order of x |
| PlanTables.WriteTexts | src/planner/fleece_planner.c:1167-1170 | writes exactly the counted texts behind the prefix |
| PlanTables.WriteAction | src/planner/fleece_planner.c:1157-1170 | writes exactly one encoded action |
| PlanTables.WriteActions | src/planner/fleece_planner.c:1155-1171 | writes exactly the counted actions |
| PlanTables.WriteGoals | src/planner/fleece_planner.c:1173-1182 | writes exactly the counted goals |
| PlanTables.WriteUtilities | src/planner/fleece_planner.c:1184-1198 | writes exactly the counted curves with their points |
| PlanTables.WriteMissions | src/planner/fleece_planner.c:1200-1208 | writes exactly the counted missions |
| PlanTables.WriteBody | src/planner/fleece_planner.c:1151-1209 | writes exactly the body |
| PlanTables.Tables.SetName | src/planner/fleece_planner.c:805-808 | keeps the planner serializable; a name that does not fit is refused and leaves the name empty |
| PlanTables.Tables.AddAction | src/planner/fleece_planner.c:851-888 | keeps the planner serializable: the action is appended exactly when its fixed fields fit |
| PlanTables.Tables.AddGoal | src/planner/fleece_planner.c:890-904 | keeps the planner serializable: the goal is appended exactly when its fields fit |
| PlanTables.Tables.AddUtility | src/planner/fleece_planner.c:906-935 | keeps the planner serializable: the curve is appended with its points sorted in place exactly when its fields fit |
| PlanTables.Tables.AddMission | src/planner/fleece_planner.c:937-959 | keeps the planner serializable: the mission is appended exactly when its fields fit |
| PlanTables.Tables.Serialize | src/planner/fleece_planner.c:1211-1224 | the allocation of the measured size is filled to its last byte with the blob |
| PlanTables.Tables.LoadActions | src/planner/fleece_planner.c:1276-1352 | on arbitrary bytes the loop appends exactly the actions read before the first failure |
| PlanTables.Tables.LoadGoals | src/planner/fleece_planner.c:1354-1375 | so does the goal loop |
| PlanTables.Tables.LoadUtilities | src/planner/fleece_planner.c:1377-1419 | on arbitrary bytes the curve loop is in range exactly under the stated condition, and then appends exactly the curves read before the first failure |
| PlanTables.Tables.LoadMissions | src/planner/fleece_planner.c:1421-1470 | so does the mission loop |
| PlanTables.Tables.Deserialize | src/planner/fleece_planner.c:1255-1476 | on arbitrary bytes: in range exactly under the stated condition, and then a refused prefix changes nothing, otherwise the tables hold what was read, success is reported exactly when everything was, and the planner stays serializable |
| PlanTables.Reload | src/planner/fleece_planner.c:1211-1476 | a planner serialized and loaded into another is the same planner, with every store in range |

## Left out

- src/embedded: the QuickJS engine, JSON values, script lifecycle and bindings; only the C decision logic is modelled, with pure callbacks.
- src/reticulum, src/comms, src/platform: transports, counters and a small registry; easy, or thin layers over code that is not part of this model.
- The main loop's sleeping, signals, threads and debug prints; one tick is one step.
- Allocation failure and freeing; data is held by value, so buffers shared between callers are not captured.
- Floating-point rounding: costs, scores and curve values are reals; NaN and the sign of zero are not captured. The cast of a blob's integers to doubles may round as it likes.
- curve_score, goal utility, goal-id lookup, make_state_key and the action library and goal-pool ticks: short and branch-light, they would only add easy members.
- The getters, listing functions and peer liveness of the state manager, for the same reason; set_named and remove_named are `Write` and `BuryField` with another owner.
- Quality of the FNV hashes: equal live views give equal digests, but nothing is claimed about different views.
- Frame sizes at or above 2^32 bytes, which the code would truncate.
- Optimality of the search: states are closed when generated, so the code does not promise it.
- Convergence through the handshake alone when deletes or equal-timestamp writes are lost: the code does not provide it, see Findings.
- tools/goap_editor, the examples, benchmarks, HTTP server, web UI and bindings.
- Runtime.Runtime.HandleControl: the parser of control frames is a function here, its bounds being those of the head reader; the destination strings are a datatype.
- Search.FindPlan: goals are given as indices; the blackboard is an abstract state with a key function, and "a plan exists" is tied to the result only where keys identify states. Tables of more than 2^31 slots, where the sum in a probe wraps too, are not part of this model.
- PlanTables.Tables.Deserialize: promises nothing about the tables once a point is stored outside its buffer, since the code's behaviour is then undefined. The inner loops over preconditions, effects and goal ids are functions; the loops over the tables and over points are loops.
- Runtime.Runtime.SendDelta: says that a record left out stays eligible only for clocks below 2^64 - 1; the exact condition is that of Bounded.ExportSafe.
- Brain.GoapBrain.Tick: the goal-pool step that runs first and the divergence callback are not part of this model.
- EndToEnd.RepairRound: asks that payloads stay 200 bytes below 2^32, so that a one-record frame's size is not truncated.
- PlanTables.MeasureList: the per-entry sizes it adds up are functions; the loops inside an entry are not separate methods.
- Auction.ClaimTable.ClaimBest: claims are typed records; the stored text of a claim, and a claim changing between the scan and the compare-and-set, are not captured.
