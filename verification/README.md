# Mesh Lab verification

A Dafny model of the LPWA mesh and of the PC programs beside it, with proofs.

The mesh is a set of ESP-NOW nodes that flood or route fragments of short messages. The PC talks to one node over a
serial line, measures links with probes, and transfers longer texts and erasure-coded 1 KB payloads. The project follows
the code in five parts.

- **The erasure codec.** `GaloisField`, `GeneratorPowers` and `GaloisTables` are the field of 256 elements and its tables;
  `LinearAlgebra` and `GaussJordan` the inversion of matrices; `ReliableCodec`, `Polynomials` and `ShardRecovery` encoding,
  decoding and the question which shards give the payload back; `Interleaver` the wire order.
- **The firmware mesh.** `MeshFrames` is the wire format and the cutting into fragments, `DuplicateFilters` the ring of seen
  keys, `Reassembly` the slots that put messages together, `InboundQueues` the queue of finished ones, `MeshNodes` one node,
  `MeshNetwork` any number of nodes over a medium that loses, repeats, delays and reorders, and `FloodControl` the end of floods.
- **Routing and transmission.** `LinkMetrics` is the fixed-point link quality, `Routing` and `RoutingTables` the tables with
  primary and backup legs, and `TransmitGate` the rule that one frame is outstanding at a time.
- **The PC protocols.** `LineFramer` splits the serial stream, `ProbeRuns` measures, `TextPackets`, `TextSenders` and
  `TextReceivers` transfer texts stop-and-wait, and `ReliableSessions` and `ReliableDeliveries` are the 1 KB session.
- **Shared.** `Clock` is the wrapping 32-bit clock, `Residues` and `Counting` are small arithmetic, `Octets` and `Wrappers` types.

Objects of the program are classes, proved against functions of their abstract state; what the program promises is then
proved of those functions, mostly for all runs. A parameter `now` without suffix is true time; `nowMs` is what a 32-bit
clock shows of it. `dafny verify dfyconfig.toml` checks everything.

## What came out differently

- Not every set of 25 shards decodes, in either profile. `ShardRecovery.MinorDecides` and
  `ShardRecovery.ProgressionRecovers` say when decoding works, `ShardRecovery.DefaultProfileNotMds` and
  `ShardRecovery.LargeProfileNotMds` give sets of shards for which it does not, and `ShardRecovery.BurstRecovers` says that
  contiguous losses never do harm. Decoding uses the shards of lowest index, so one more genuine shard can even make it
  fail, a parity shard (`ShardRecovery.FurtherShardHurts`) as well as a data shard (`ShardRecovery.DataShardHurts`); one
  above those used cannot (`ShardRecovery.HigherShardIsIgnored`).
- The 1 KB receiver decodes as soon as it has as many shards as the data, before the end packet, and throws the session
  away if that fails (`ReliableDeliveries.GivenUpBeforeEnd`, `ReliableDeliveries.LossThatGivesUp`), although a further
  parity shard can still help (`ShardRecovery.FurtherShardHelps`).
- A chunk that arrives after the end packet is stored and not decoded (`ReliableDeliveries.LateChunkKept`). A session that
  it makes recoverable waits for a repair or a further end, and times out with nothing shown if none comes
  (`ReliableDeliveries.ShownWhenTried`, `ReliableDeliveries.RecoverableTimesOut`).
- A shard that arrives garbled counts as present for the 1 KB receiver and is not requested
  (`ReliableDeliveries.GarbledNotRequested`). Requests cover what is unusable exactly when every shard that arrived has a
  text form and the right size (`ReliableDeliveries.RequestCoversUnusable`); otherwise the end can give a session up with
  nothing requested (`ReliableDeliveries.NothingAbsentAtEnd`, `ReliableDeliveries.GarbledSessionGivenUp`).
- docs/architecture.md says that a late transmission result is never credited to another frame. The recovery that
  src/espnow_mesh.cpp tries after ten seconds breaks this when the driver still holds the frame
  (`TransmitGate.EarlyRecoveryMisattributes`), and only then (`TransmitGate.RecoveryIsSafeExactly`).
- Learning a route keeps the two legs different exactly under the condition of `Routing.LearningKeepsLegsDifferent`, which
  pruning at the same instant, as the firmware does, establishes.
- Message ids skip zero, so they repeat after 2^32 - 1 messages and not after 2^32.

## Model

| member | source | states |
|---|---|---|
| `GaloisField.MulIsRemainder` | pc_app/lpwa_gui/reliable_codec.py:9-27 | the product of two bytes is the remainder of their carry-less product by 0x11D: multiplied out without carries, it differs from the product by a multiple of 0x11D |
| `GaloisField.AddLaws` | pc_app/lpwa_gui/reliable_codec.py:30-33 | exclusive-or is a commutative group in which every byte is its own inverse |
| `GaloisField.MulCommutes` | pc_app/lpwa_gui/reliable_codec.py:30-33 | the product commutes |
| `GaloisField.MulAssociates` | pc_app/lpwa_gui/reliable_codec.py:30-33 | the product associates |
| `GaloisField.MulRightAdds` | pc_app/lpwa_gui/reliable_codec.py:30-33 | the product distributes over exclusive-or |
| `GaloisField.MulUnits` | pc_app/lpwa_gui/reliable_codec.py:30-33 | zero annihilates and one is neutral |
| `GeneratorPowers.OrderOfGenerator` | pc_app/lpwa_gui/reliable_codec.py:12-24 | 2 generates the whole field: its powers come back to 1 after 255 steps and not before, which is what the tables rely on |
| `GeneratorPowers.PowersCover` | pc_app/lpwa_gui/reliable_codec.py:12-24 | every non-zero byte is a power of 2, so the log table is filled completely |
| `GeneratorPowers.InverseExists` | pc_app/lpwa_gui/reliable_codec.py:36-39 | every non-zero byte has an inverse |
| `GeneratorPowers.NoZeroDivisors` | pc_app/lpwa_gui/reliable_codec.py:30-33 | a product is zero only if a factor is |
| `GaloisTables.BuildTables` | pc_app/lpwa_gui/reliable_codec.py:12-24 | the loop fills exp with the powers of 2, doubled in length, and log with their exponents |
| `GaloisTables.GfMul` | pc_app/lpwa_gui/reliable_codec.py:30-33 | the table look-up is multiplication in the field, zero operands included |
| `GaloisTables.GfInv` | pc_app/lpwa_gui/reliable_codec.py:36-39 | the look-up gives the inverse, and fails exactly on zero |
| `GaussJordan.FindPivot` | pc_app/lpwa_gui/reliable_codec.py:94-99 | the search returns the first row at or below the column with a non-zero entry, or none if there is none |
| `GaussJordan.CombineTracks` | pc_app/lpwa_gui/reliable_codec.py:112-118 | subtracting a multiple of one row from another on both halves keeps the equations the pair of matrices stands for; one of three row operations that do |
| `GaussJordan.SwapTracks` | pc_app/lpwa_gui/reliable_codec.py:100-102 | so does exchanging two rows |
| `GaussJordan.ScaleTracks` | pc_app/lpwa_gui/reliable_codec.py:104-108 | and so does scaling a row by the inverse of its pivot |
| `GaussJordan.ScaleRows` | pc_app/lpwa_gui/reliable_codec.py:104-108 | the loop over the columns multiplies both halves of the row by the same factor |
| `GaussJordan.CombineRows` | pc_app/lpwa_gui/reliable_codec.py:112-118 | the loop over the columns adds the same multiple of the pivot row to both halves |
| `GaussJordan.ClearColumn` | pc_app/lpwa_gui/reliable_codec.py:110-118 | clearing a column leaves the columns before it done and keeps the equations |
| `GaussJordan.NoPivotIsSingular` | pc_app/lpwa_gui/reliable_codec.py:94-99 | a column without pivot exhibits a non-zero kernel vector of the input |
| `GaussJordan.InvertMatrix` | pc_app/lpwa_gui/reliable_codec.py:87-119 | for every size: None is returned exactly when the input has a non-zero kernel vector, and otherwise a two-sided inverse is |
| `LinearAlgebra.InverseExcludesKernel` | pc_app/lpwa_gui/reliable_codec.py:87-119 | a matrix with an inverse has no non-zero kernel vector, so the two results exclude each other |
| `ReliableCodec.GetProfile` | pc_app/lpwa_gui/reliable_codec.py:57-69 | exactly the two known profiles are found, each under its own id: 25 data shards of 40 bytes, and 8 or 10 parity shards |
| `ReliableCodec.RowForIndex` | pc_app/lpwa_gui/reliable_codec.py:72-84 | the row of a data shard has a one in its own column and zeros elsewhere; column c of the row of parity shard dataShards + q is the c-th power of q + 1; an index out of range is an error |
| `ReliableCodec.PowersOf` | pc_app/lpwa_gui/reliable_codec.py:78-84 | the running product of the base makes its row of powers |
| `ReliableCodec.EncodeShards` | pc_app/lpwa_gui/reliable_codec.py:122-153 | the bytes of the data shards are those of the payload followed by zeros; byte b of parity shard dataShards + q is the polynomial with the b-th bytes of the data shards as coefficients, evaluated at q + 1; an oversized payload is an error |
| `ReliableCodec.ParityEvaluates` | pc_app/lpwa_gui/reliable_codec.py:72-84 | so it is for every valid profile: parity shards are evaluations of the polynomials of the data at 1, 2, 3, ... |
| `ReliableCodec.SplitPayload` | pc_app/lpwa_gui/reliable_codec.py:129-133 | the loop cuts the padded payload into consecutive slices of the shard size |
| `ReliableCodec.AddScaled` | pc_app/lpwa_gui/reliable_codec.py:140-149 | adding a multiple of a shard byte by byte is right in all three branches, the short cuts for the coefficients zero and one included |
| `ReliableCodec.MixRows` | pc_app/lpwa_gui/reliable_codec.py:135-149 | accumulating the multiples of all shards gives the dot product in every byte position |
| `ReliableCodec.DataShardIsData` | pc_app/lpwa_gui/reliable_codec.py:151-153 | the code is systematic: a data shard is the slice of the payload itself |
| `ReliableCodec.JoinDataShards` | pc_app/lpwa_gui/reliable_codec.py:129-133 | cutting and joining again gives the padded payload, whose beginning is the payload |
| `ReliableCodec.UnmixedExplains` | pc_app/lpwa_gui/reliable_codec.py:184-198 | data rows explain received rows exactly when they are what the inverse makes of them |
| `ReliableCodec.DecodeShards` | pc_app/lpwa_gui/reliable_codec.py:156-200 | decoding succeeds exactly when enough shards are present, the selected rows are independent and the selected shards have the right size; the result then comes from data that explain the selected shards; a bad size is an error |
| `ReliableCodec.CollectShards` | pc_app/lpwa_gui/reliable_codec.py:177-182 | the selected shards are taken in order, unless one has the wrong size |
| `ReliableCodec.DecodeSelected` | pc_app/lpwa_gui/reliable_codec.py:171-198 | inverting the rows of the selected shards and combining the shards gives data that explain them, exactly when the shards are decodable |
| `ReliableCodec.MissingShardIndexes` | pc_app/lpwa_gui/reliable_codec.py:203-205 | the result lists exactly the absent indices, in ascending order |
| `ShardRecovery.ExplanationUnique` | pc_app/lpwa_gui/reliable_codec.py:156-200 | independent rows leave one explanation only, so what decoding returns is determined |
| `ShardRecovery.DecodingIsSound` | pc_app/lpwa_gui/reliable_codec.py:122-200 | for every payload and every set of genuine shards, decoding returns the payload itself or nothing, and the payload exactly when the shards present are recoverable |
| `ShardRecovery.ParityUsed` | pc_app/lpwa_gui/reliable_codec.py:168-172 | decoding uses as many parity shards as data shards are lost, those of lowest index |
| `ShardRecovery.RecoverableExactly` | pc_app/lpwa_gui/reliable_codec.py:168-175 | shards are recoverable exactly when no non-zero change of the lost data goes unnoticed by the parity shards used |
| `Polynomials.TooManyRoots` | pc_app/lpwa_gui/reliable_codec.py:72-84 | a polynomial over the field with as many different roots as coefficients is zero |
| `Polynomials.RootPolyHasRoots` | pc_app/lpwa_gui/reliable_codec.py:72-84 | a monic polynomial with one root at each of given places exists, with one coefficient more than places |
| `Polynomials.DotOnProgression` | pc_app/lpwa_gui/reliable_codec.py:72-84 | a row of powers meets a vector supported at equal distances d as a polynomial at the d-th power of the base |
| `ShardRecovery.MinorDecides` | pc_app/lpwa_gui/reliable_codec.py:72-84 | shards are recoverable exactly when the small matrix of powers, with rows for the used parity shards and columns for the lost data shards, has independent rows |
| `ShardRecovery.ProgressionRecovers` | pc_app/lpwa_gui/reliable_codec.py:72-84 | when the lost data shards stand at equal distances d, recovery works exactly when the used parity bases have pairwise different d-th powers |
| `ShardRecovery.BurstRecovers` | pc_app/lpwa_gui/reliable_codec.py:72-84 | burst recovery: when the lost data shards form one contiguous run, any parity shards that are as many suffice |
| `ShardRecovery.TwoLossesExactly` | pc_app/lpwa_gui/reliable_codec.py:72-84 | with two data shards lost, recovery works exactly when the two parity bases differ in the power given by the distance of the lost shards |
| `ShardRecovery.DefaultProfileNotMds` | pc_app/lpwa_gui/reliable_codec.py:57-63 | any 25 shards do not suffice: a concrete set of 25 genuine shards of the default profile that is not recoverable |
| `ShardRecovery.LargeProfileNotMds` | pc_app/lpwa_gui/reliable_codec.py:57-63 | the same for the profile with ten parity shards |
| `ShardRecovery.FurtherShardHelps` | pc_app/lpwa_gui/reliable_codec.py:168-172 | a set of shards that does not decode and does with one more parity shard |
| `ShardRecovery.FurtherShardHurts` | pc_app/lpwa_gui/reliable_codec.py:168-172 | a set of shards that decodes and does not with one more genuine parity shard, because those of lowest index are used |
| `ShardRecovery.DataShardHurts` | pc_app/lpwa_gui/reliable_codec.py:168-172 | a set of shards that decodes and does not with one more genuine data shard, because a parity shard that was needed is then left out |
| `ShardRecovery.HigherShardIsIgnored` | pc_app/lpwa_gui/reliable_codec.py:168-172 | a further shard makes no difference when its index is above those used |
| `Interleaver.Bezout` | pc_app/lpwa_gui/reliable_codec.py:213-214 | the greatest common divisor is a combination of its arguments |
| `Interleaver.GcdIs` | pc_app/lpwa_gui/reliable_codec.py:213-214 | it divides both, and whatever divides both divides it |
| `Interleaver.FirstCoprime` | pc_app/lpwa_gui/reliable_codec.py:212-214 | the search for a coprime step ends, at the first one |
| `Interleaver.StrideOrderPermutes` | pc_app/lpwa_gui/reliable_codec.py:215-224 | stepping by a coprime stride visits every index exactly once |
| `Interleaver.Unvisited` | pc_app/lpwa_gui/reliable_codec.py:219-220 | the next multiple has never been visited, so the inner skipping loop does not run |
| `Interleaver.SkipSeen` | pc_app/lpwa_gui/reliable_codec.py:219-220 | the skipping loop ends on a free index for any set of visited ones, and stays where it is if that is free |
| `Interleaver.InterleavedIndexes` | pc_app/lpwa_gui/reliable_codec.py:208-224 | for every total and stride, negative ones included, position i of the order is i times the first coprime step, modulo the total |
| `LineFramer.FedAppend` | pc_app/mesh_lab/transport.py:20-37 | feeding two pieces one after the other is feeding them joined |
| `LineFramer.SplitLinesJoin` | pc_app/mesh_lab/transport.py:20-37 | processing what splitting at CR and LF yields is processing the bytes one by one |
| `LineFramer.LineBuffer.Feed` | pc_app/mesh_lab/transport.py:20-37 | feeding returns the new lines and leaves the state of the byte-by-byte framer; the retained buffer is within the limit |
| `LineFramer.LinesRejoin` | pc_app/mesh_lab/transport.py:20-37 | the complete lines and the unfinished rest make up the input |
| `LineFramer.LinesEndAtLf` | pc_app/mesh_lab/transport.py:20-37 | each complete line has its only LF at its end, and the rest has none |
| `LineFramer.FramerMeaning` | pc_app/mesh_lab/transport.py:20-37 | for every input: the emitted lines are exactly the complete lines within the limit, trimmed at the end; each oversized line is counted once; and an oversized unfinished line is being discarded |
| `LineFramer.StrippedIs` | pc_app/mesh_lab/transport.py:34-35 | an emitted line ends before the CR and LF at its end, all of them |
| `LineFramer.PieceIs` | pc_app/mesh_lab/transport.py:22-23 | a chunk is cut after each LF, CR and CR LF and nowhere else |
| `Clock.ElapsedIsAge` | src/duplicate_filter.cpp:10-27 | unsigned 32-bit subtraction gives the true age up to wrap-around, and never more than the true age |
| `DuplicateFilters.DuplicateFilter.Seen` | src/duplicate_filter.cpp:10-27 | true whenever the key is among the last 512 remembered within the window, and only then unless an age has wrapped |
| `DuplicateFilters.DuplicateFilter.Remember` | src/duplicate_filter.cpp:29-36 | the history grows by the key at its true time |
| `DuplicateFilters.DuplicateFilter.SeenAndRemember` | src/duplicate_filter.cpp:38-44 | a key is remembered exactly when it was not reported as seen |
| `DuplicateFilters.DuplicateFilter.Clear` | src/duplicate_filter.cpp:46-52 | nothing is remembered afterwards |
| `DuplicateFilters.AcceptedApart` | src/duplicate_filter.cpp:10-44 | between two acceptances of one key lie 512 others or more than the window |
| `MeshFrames.HeaderRoundTrip` | include/mesh_protocol.h:130-138 | reading a packed header gives back its fields and the body behind it |
| `MeshFrames.PutGetHeader` | include/mesh_protocol.h:130-138 | packing what was read from a frame gives back the frame |
| `MeshFrames.MetaRoundTrip` | include/mesh_protocol.h:140-147 | reading packed fragment meta data gives back its fields |
| `MeshFrames.ParseHeader` | src/espnow_mesh.cpp:701-724 | what is accepted has the right magic, version and kind and a valid envelope, and header and body make up the frame |
| `MeshFrames.ParsesExactly` | src/espnow_mesh.cpp:701-724 | a header in front of any body is accepted exactly when it is valid |
| `MeshFrames.GeometryIsSlicing` | include/mesh_validation.h:12-20 | geometry admits exactly the fragments that cutting a payload of the announced length produces |
| `MeshFrames.FragmentCount` | src/fragmenter.cpp:8-17 | the least number of fragments that hold the payload, one for an empty one and zero exactly for one that is too long |
| `MeshFrames.FragmentSlice` | src/fragmenter.cpp:19-47 | a slice exists exactly for the indices below the count, has the length that geometry demands, and holds the bytes at its place |
| `MeshFrames.FragmentsPartition` | src/fragmenter.cpp:8-47 | cutting loses nothing: the fragments laid end to end are the payload |
| `MeshFrames.ClampTtl` | src/espnow_mesh.cpp:1168-1176 | the nearest ttl in 1..14 |
| `MeshFrames.OriginFrameValid` | src/espnow_mesh.cpp:879-904 | every frame an origin builds, flooded or directed, fits the radio, passes every check and can be read back |
| `MeshFrames.ForwardedParses` | src/espnow_mesh.cpp:637-644 | a relayed frame is accepted like the original, with one unit moved from ttl to hops and the body unchanged |
| `MeshFrames.ForwardedBytes` | src/espnow_mesh.cpp:637-644 | relaying changes the two bytes of ttl and hops and no other |
| `MeshFrames.LittleEndian` | include/mesh_protocol.h:106-147 | numbers are packed with the lowest byte first |
| `Reassembly.ReassemblyManager.FindSlot` | src/fragmenter.cpp:173-185 | a slot is found exactly when the message is in the abstract table |
| `Reassembly.ReassemblyManager.AllocateSlot` | src/fragmenter.cpp:187-205 | a free slot is returned; if there was none, one oldest message is lost and nothing else changes |
| `Reassembly.ReassemblyManager.OpenSlot` | src/fragmenter.cpp:79-104 | a slot for a new message starts empty, whatever the slot held before, and costs at most one oldest message |
| `Reassembly.ReassemblyManager.MergeSlot` | src/fragmenter.cpp:105-119 | a further fragment updates hops, signal strength and sender of its message only |
| `Reassembly.ReassemblyManager.FillSlot` | src/fragmenter.cpp:121-155 | storing a fragment adds its bytes; the last missing one delivers a message with exactly the stored parts and frees the slot |
| `Reassembly.ReassemblyManager.PushFragment` | src/fragmenter.cpp:55-155 | the slots refine a map from message key to received fragments: push evicts at most one message, and only for a new key; stores, ignores or completes as the map does; and hands out a message exactly on completion |
| `Reassembly.ReassemblyManager.PruneExpired` | src/fragmenter.cpp:157-171 | exactly the timed-out messages are dropped, and their number is reported |
| `Reassembly.PushTakesFragment` | src/fragmenter.cpp:55-155 | for every fragment, in terms of its fields: one out of range or at odds with its message changes nothing; any other is merged, with the largest hops and the best signal and its sender, and completes its message exactly when its chunk is new and the last |
| `Reassembly.DeliveryIsExact` | src/fragmenter.cpp:129-155 | a delivered message made of fragments of a payload is that payload: stale bytes of the slot do not show |
| `Reassembly.PushGenuine` | src/fragmenter.cpp:55-155 | a genuine fragment completes its message exactly when it is the last one missing |
| `Reassembly.TableAccumulates` | src/fragmenter.cpp:55-155 | in every run of arrivals of any fragments, evictions and time-outs, the map holds of a message exactly the fragments that arrived since it was last absent |
| `Reassembly.EmitsOnLastMissing` | src/fragmenter.cpp:55-155 | in every run of arrivals, evictions and time-outs, the payload comes out exactly on the arrival of the last fragment missing since the message was last absent |
| `InboundQueues.InboundQueue.Push` | src/espnow_mesh.cpp:1621-1629 | the queue takes a message at its end unless it is full |
| `InboundQueues.InboundQueue.Pop` | src/espnow_mesh.cpp:241-250 | messages come out in the order they went in |
| `LinkMetrics.EtxSmooths` | src/espnow_mesh.cpp:1265-1297 | a result counts once, a full window is halved, and ETX moves an eighth of the way, up to rounding, towards the clamped sample without passing it |
| `LinkMetrics.EtxEdges` | src/espnow_mesh.cpp:1265-1297 | full counters stay full before they are halved, and an ETX of zero takes the sample as it is |
| `LinkMetrics.SampleIs` | src/espnow_mesh.cpp:1284-1291 | the sample is 256 transmissions per success, rounded down and kept within 256 and 2048 |
| `LinkMetrics.RssiSmooths` | src/espnow_mesh.cpp:1364-1373 | the first reading is taken as it is; later the average moves an eighth of the way towards the reading, up to rounding towards zero, and stays between; a reading of zero stands for -85 |
| `LinkMetrics.CountsFailuresInARow` | src/espnow_mesh.cpp:478-481 | over every history the failure counter is the number of failures since the last success, up to 255 |
| `LinkMetrics.StatsStayInRange` | src/espnow_mesh.cpp:1265-1297 | over every history of results and frames all link statistics stay in range |
| `LinkMetrics.MetricMonotone` | src/espnow_mesh.cpp:1585-1601 | the saturating metric never improves with more hops or a higher ETX, and below saturation every hop costs 256 |
| `LinkMetrics.MetricIs` | src/espnow_mesh.cpp:1585-1601 | below saturation a hop counts 256, an expected transmission 2048 and a decibel below zero 4, with the averaged signal where there is one |
| `LinkMetrics.TruncatesTowardsZero` | src/espnow_mesh.cpp:1592 | signed division rounds towards zero |
| `Routing.OperationsKeepLegsDifferent` | src/espnow_mesh.cpp:1318-1352 | pruning, selecting and purging keep primary and backup next hop different |
| `Routing.LearningKeepsLegsDifferent` | src/espnow_mesh.cpp:1384-1431 | learning keeps them different exactly when the primary is valid, or already the sender, or the backup is not the sender |
| `Routing.LegAges` | src/espnow_mesh.cpp:1213-1221 | a leg is valid exactly while it names a neighbour and is at most 45 s old, until its age wraps |
| `Routing.RefreshingKeepsLive` | src/espnow_mesh.cpp:1437-1471 | pruning and selecting keep a live primary, with a live backup beside it; a dead primary gives way to a live backup, and an entry with no live leg ends |
| `Routing.PurgeLoses` | src/espnow_mesh.cpp:484-497 | a purge takes the neighbour out of both legs and nothing else: a live backup of another neighbour takes the place of a primary, and without one the entry ends |
| `Routing.LearningTakesLeg` | src/espnow_mesh.cpp:1395-1431 | a leg of the live primary's neighbour replaces it; any other is the primary exactly when better by more than 48, with the old one as backup, and else the backup exactly when that was the same neighbour's, dead, or worse by more than 48 |
| `Routing.EveryReachableTableOk` | src/espnow_mesh.cpp:1318-1471 | in every reachable table there is at most one used entry per destination, never for zero or the node itself, and its legs differ |
| `Routing.PruneMakesLive` | src/espnow_mesh.cpp:1318-1352 | after a prune every used entry has an unexpired, non-zero primary |
| `Routing.PurgeRemoves` | src/espnow_mesh.cpp:472-499 | a purge leaves no leg of an entry naming the neighbour |
| `Routing.OnlyLearningNames` | src/espnow_mesh.cpp:1354-1435 | only hearing a frame from a neighbour brings it into a leg |
| `Routing.PurgedStaysAway` | src/espnow_mesh.cpp:472-499 | once no leg names a neighbour, none does, whatever happens, until a later frame from it is heard |
| `Routing.HysteresisBoundsSwitches` | src/espnow_mesh.cpp:1384-1431 | while the primary does not expire and is not refreshed, each switch lowers the stored metric by at least 49, so there are at most 1337 |
| `Routing.HysteresisStaysNearBest` | src/espnow_mesh.cpp:1395-1431 | meanwhile the primary is never worse by more than 48 than any leg heard |
| `Routing.HearingLeavesNearBest` | src/espnow_mesh.cpp:1354-1435 | in every run of table operations, hearing a frame leaves one live route to its origin, not worse by more than 48 than the leg heard |
| `RoutingTables.RoutingTables.PruneRoutingTables` | src/espnow_mesh.cpp:1318-1352 | exactly the neighbours not heard for more than 60 s go; live legs stay, live backups take the place of dead primaries, and routes with no live leg end |
| `RoutingTables.RoutingTables.FindRoute` | src/espnow_mesh.cpp:1540-1550 | the search finds the entry of the destination or nothing |
| `RoutingTables.RoutingTables.PruneEntry` | src/espnow_mesh.cpp:1223-1242 | an entry with an expired primary takes over its live backup, or is cleared |
| `RoutingTables.RoutingTables.FindNeighbor` | src/espnow_mesh.cpp:1492-1505 | the search finds the entry of the address or nothing |
| `RoutingTables.RoutingTables.RouteSlot` | src/espnow_mesh.cpp:1552-1583 | an existing entry, else a free one, else the one whose primary was learned longest ago |
| `RoutingTables.RoutingTables.NeighborSlot` | src/espnow_mesh.cpp:1507-1538 | the same for neighbours |
| `RoutingTables.RoutingTables.LearnRouteFromFrame` | src/espnow_mesh.cpp:1354-1435 | in a table pruned at that instant, a frame updates one neighbour, known or replaceable, and one route: the entry of its origin takes the leg by the rule of hysteresis, or an entry that may be replaced becomes a route with this leg alone; the leg is one hop longer than the way of the frame and has the metric of that neighbour. Frames of origin zero or of the node itself change nothing |
| `RoutingTables.RoutingTables.SelectRoute` | src/espnow_mesh.cpp:1437-1471 | a selected route is the entry of the destination with its live primary, or else with its live backup in that place; nothing is selected exactly when no entry of the destination has a live leg |
| `RoutingTables.RoutingTables.RecordTxResult` | src/espnow_mesh.cpp:472-499 | a result updates the statistics of its neighbour and its count of failures in a row, which a success ends; a failure that is not the first in a row takes the neighbour out of every route, and no other result changes a route |
| `RoutingTables.ResultRecords` | src/espnow_mesh.cpp:472-499 | the same of the specified effect of one result, for all tables |
| `RoutingTables.LearnsTakesFrame` | src/espnow_mesh.cpp:1354-1435 | the same rule of learning for everything the node learns from, duplicates included |
| `RoutingTables.RoutingTables.RecordAll` | src/espnow_mesh.cpp:501-505 | a list of results changes neighbours and routes as one after the other does, with exactly the purges that second failures cause |
| `RoutingTables.RoutingTables.RelayUnicast` | src/espnow_mesh.cpp:655-681 | hops tried, success and both tables are those of the specified relay |
| `RoutingTables.RoutingTables.OriginUnicast` | src/espnow_mesh.cpp:1013-1031 | the unicast attempts for a fragment that starts here are those of the specified relay with no neighbour excluded |
| `RoutingTables.RoutingTables.BroadcastUntilSent` | src/espnow_mesh.cpp:683-694 | broadcasts are made up to the first success or to the last attempt, and both tables take every result recorded meanwhile |
| `RoutingTables.RoutingTables.BroadcastAll` | src/espnow_mesh.cpp:914-923 | all repetitions are made, and the call reports whether one succeeded; both tables take every result recorded meanwhile |
| `RoutingTables.ChosenIsLive` | src/espnow_mesh.cpp:1437-1471 | selection finds a live route for the destination in the table, exactly if one of its entries has a live leg |
| `RoutingTables.RelayShape` | src/espnow_mesh.cpp:659-681 | attempts go to the hops of the tables as they are at that moment, all but the last fail, and trying ends exactly with a success, with no hop left, or with the attempts |
| `RoutingTables.RelayStartsAtHop` | src/espnow_mesh.cpp:655-668 | the first attempt of a relay goes to the hop of the tables at its start, if there is one |
| `RoutingTables.RelayHopsAreLive` | src/espnow_mesh.cpp:655-681 | every attempt of a relay goes to the live, non-zero primary of a route that is in the table for the destination at that moment, and never back to the neighbour the frame came from |
| `RoutingTables.RelayGivesUp` | src/espnow_mesh.cpp:655-681 | unicasting ends early only when no route of the destination is live or the selected one leads back |
| `RoutingTables.RelayIsRun` | src/espnow_mesh.cpp:472-505 | a relay is a run of selections and purges of the routing table, so the invariants of reachable tables hold in it |
| `RoutingTables.PurgedNotTried` | src/espnow_mesh.cpp:655-681 | a neighbour that no leg names, purged before the relay or during it, is not tried any more |
| `RoutingTables.SecondFailureIsLast` | src/espnow_mesh.cpp:472-499 | after an attempt whose own result is the second failure in a row of its neighbour, no later attempt of the relay goes there |
| `RoutingTables.SecondFailureUnnames` | src/espnow_mesh.cpp:472-505 | after recording results among which one is the second failure in a row of a neighbour, no leg names it |
| `RoutingTables.LearningEvolves` | src/espnow_mesh.cpp:1354-1435 | pruning and learning from a frame is a run of table operations that hears no one but the sender of the frame |
| `RoutingTables.LifeIsRun` | src/espnow_mesh.cpp:175-1117 | over any sequence of calls to a node, each of which hears at most the sender of the frame it takes, the routes are one run of table operations that hears no one but those senders |
| `RoutingTables.UnnamedUntilHeard` | src/espnow_mesh.cpp:472-499 | over any such sequence, a neighbour that no leg names, such as one just purged, stays out of every leg until the node takes a frame from it, and the table invariant is kept |
| `RoutingTables.OnlySendersAreNamed` | src/espnow_mesh.cpp:1354-1435 | from the empty table on, every next hop is the sender of a frame the node took |
| `TransmitGate.OneOutstandingInEveryRun` | src/espnow_mesh.cpp:1133-1166 | without recovery and lost callbacks: what the driver holds plus the queued results is one exactly while a result is awaited; accepted frames are successes plus failures plus the one awaited; every result is credited to its own frame |
| `TransmitGate.RecoveryIsSafeExactly` | src/espnow_mesh.cpp:507-520 | recovery is safe in all continuations exactly when the driver does not hold the frame any more |
| `TransmitGate.LostOnlyRecoveryIsSafe` | src/espnow_mesh.cpp:507-520 | when every recovery finds the driver empty, no result is credited to another frame |
| `TransmitGate.RunsAreSafe` | src/espnow_mesh.cpp:507-520 | in every run from the start in which recoveries find the driver empty, every result is credited to its own frame |
| `TransmitGate.EarlyRecoveryMisattributes` | src/espnow_mesh.cpp:507-520 | recovery while the driver still holds the frame can always lead to a result credited to the next frame, against docs/architecture.md |
| `TransmitGate.RadioSender.OnSend` | src/espnow_mesh.cpp:427-431 | the callback queues one result for one frame the driver holds |
| `TransmitGate.RadioSender.RecordTxResult` | src/espnow_mesh.cpp:472-499 | a result is taken from the head of the queue and counted for the frame awaited |
| `TransmitGate.RadioSender.AwaitResult` | src/espnow_mesh.cpp:1143-1155 | an accepted frame is credited with the callback that comes in time, which is its own unless the driver still held an older frame, and stays awaited if none comes |
| `TransmitGate.RadioSender.Submit` | src/espnow_mesh.cpp:1137-1165 | only a full driver queue is tried again, at most twice: the frame is accepted exactly when the first other answer is acceptance, and retries, drops and refusals are counted accordingly |
| `TransmitGate.RadioSender.Drain` | src/espnow_mesh.cpp:1135-1136 | every late result is credited to the latest frame before a submission; submission is possible exactly if nothing is awaited then |
| `TransmitGate.RadioSender.ProcessTxResultQueue` | src/espnow_mesh.cpp:501-505 | draining credits every queued result to the latest frame, in order, and does nothing else |
| `TransmitGate.RadioSender.SendRawTo` | src/espnow_mesh.cpp:1133-1166 | an admissible frame is submitted as above in the gate that draining leaves, unless a frame is still awaited and no result of it has come: then nothing changes, and any other frame is refused without effect too. Success is reported only on a success recorded for the frame |
| `TransmitGate.RadioSender.RecoverStalledTx` | src/espnow_mesh.cpp:507-520 | recovery gives up the outstanding frame if re-registration works, and changes nothing if not |
| `MeshNodes.EspNowMesh.NextMessageId` | src/espnow_mesh.cpp:1631-1637 | ids count up with wrap-around and skip zero |
| `MeshNodes.EspNowMesh.SendPayload` | src/espnow_mesh.cpp:856-1060 | a send consumes one id and puts on the air the fragments of the payload, up to the first of which no transmission succeeds; it succeeds exactly if there is none. An oversized payload or a bad destination changes nothing. The routes hear no one |
| `MeshNodes.EspNowMesh.SendFragments` | src/espnow_mesh.cpp:866-935 | the fragments go out in order, each from the tables the one before left, up to the first whose transmissions all fail; each key is remembered, unless the filter reports it as seen, which without wrap-around means it is in the horizon |
| `MeshNodes.EspNowMesh.SendFragment` | src/espnow_mesh.cpp:914-1050 | a flooded fragment is broadcast as often as planned; a directed one goes to the hops of the specified relay and, if none answers, is broadcast up to the first success; the tables take every result recorded meanwhile |
| `MeshNodes.EspNowMesh.RememberOwn` | src/espnow_mesh.cpp:907-912 | the key of an own frame is added to the history unless it is reported as seen, which without wrap-around means it is in the horizon |
| `MeshNodes.EspNowMesh.SendNodeInfo` | src/espnow_mesh.cpp:1062-1117 | announcing consumes one id, remembers the key of its frame and puts that frame, with the node's own id, on the air |
| `MeshNodes.EspNowMesh.StartTurn` | src/espnow_mesh.cpp:175-194 | a turn of the main loop first takes the late results and then prunes the tables, and hears no one |
| `MeshNodes.EspNowMesh.PopReceivedMessage` | src/espnow_mesh.cpp:241-250 | the application gets the oldest message that was queued and not yet taken |
| `MeshNodes.EspNowMesh.PruneReassembly` | src/espnow_mesh.cpp:196-198 | time-outs remove exactly the messages not completed in time |
| `MeshNodes.EspNowMesh.HandleFragmentFrame` | src/espnow_mesh.cpp:726-802 | a fragment for this node goes through reassembly, and a completed message is appended to the queue exactly when that has room |
| `MeshNodes.EspNowMesh.CheckFilters` | src/espnow_mesh.cpp:580-591 | a key in the duplicate horizon is always a duplicate, and any other key in the horizon of the rejects is always rejected; without wrap-around nothing else is caught by either filter |
| `MeshNodes.EspNowMesh.RememberReject` | src/espnow_mesh.cpp:614-617 | the history of the rejects grows by the key |
| `MeshNodes.EspNowMesh.AcceptFrame` | src/espnow_mesh.cpp:599-635 | an accepted frame is handled, remembered and learned from; it is relayed exactly when its ttl exceeds one and it is not a directed frame for this node, with one byte of ttl less, one of hops more and every other byte the same |
| `MeshNodes.RelaysExactly` | src/espnow_mesh.cpp:621-644 | that rule from the bytes of the frame, for every frame and node |
| `MeshNodes.SameKeyExactly` | src/espnow_mesh.cpp:558-578 | frames have the same duplicate key exactly when kind, origin, message id and fragment index agree byte by byte |
| `MeshNodes.ForMeExactly` | src/espnow_mesh.cpp:765-802 | fragments are put together here exactly if flooded or directed to this node, from the bytes of the frame |
| `MeshNodes.NodeInfoExactly` | src/espnow_mesh.cpp:804-815 | node information is accepted exactly if it names its own origin, which is not zero |
| `MeshNodes.InfoAccepted` | src/espnow_mesh.cpp:1062-1111 | what a node announces about itself passes this and every other check |
| `MeshNodes.EspNowMesh.TakeFrame` | src/espnow_mesh.cpp:535-623 | a frame is dropped exactly if it is invalid or the node's own; a duplicate if it is in the duplicate horizon, and then the pruned tables learn from it; rejected if it is among the rejects or is node information about another node, which is remembered, and then the tables are only pruned; accepted otherwise, and then learned from in the pruned tables. Only acceptance changes the abstract node. A wrapped 32-bit age can make a duplicate or a reject of more frames, never of fewer |
| `MeshNodes.EspNowMesh.SendOn` | src/espnow_mesh.cpp:646-694 | a directed frame is relayed by unicast with the tables of the node, as specified; without a success, and for other frames, it is broadcast up to the first success; the tables take every result recorded meanwhile, and hear no one |
| `MeshNodes.UnicastsFirst` | src/espnow_mesh.cpp:655-668 | a directed frame goes first to the hop of the tables as they are, if there is one; no other frame is unicast |
| `MeshNodes.OriginUnicastsFirst` | src/espnow_mesh.cpp:1013-1031 | and so does a directed fragment that starts here |
| `MeshNodes.EspNowMesh.ProcessFrame` | src/espnow_mesh.cpp:535-699 | a frame changes the node and its tables as above. An accepted frame is sent on exactly when byte 12, its ttl, exceeds one and it is not a directed frame whose bytes 14 to 17 are this node; it goes out with that byte one lower, byte 13 one higher and all others the same: by unicast from the tables pruned and learned from this frame, then by broadcast, within the attempts that its kind and the receive queue allow. Whatever becomes of the frame, the routes hear no one but its sender |
| `MeshNodes.AttemptBudget` | src/espnow_mesh.cpp:1189-1203 | one attempt for node information; for others the configured number, one less while the receive queue is busy, and at least one |
| `MeshNetwork.NthIdIs` | src/espnow_mesh.cpp:1631-1637 | the k-th id of a node, in closed form modulo 2^32 - 1 |
| `MeshNetwork.IdsDiffer` | src/espnow_mesh.cpp:1631-1637 | a node that issues fewer than 2^32 - 1 ids never repeats one |
| `MeshNetwork.OriginateKeepsInvariant` | src/espnow_mesh.cpp:856-1060 | sending keeps everything on the air and in every table genuine |
| `MeshNetwork.AnnounceKeepsInvariant` | src/espnow_mesh.cpp:1062-1117 | so does announcing a node |
| `MeshNetwork.RelayGenuine` | src/espnow_mesh.cpp:621-644 | relaying keeps a frame genuine, one hop further |
| `MeshNetwork.ReceiveKeepsInvariant` | src/espnow_mesh.cpp:535-699 | receiving and relaying keep everything on the air, in every table and in every queue genuine |
| `MeshNetwork.InvariantInEveryRun` | src/espnow_mesh.cpp:535-1117 | the invariant in every state of every run of any number of nodes that send, announce themselves, relay, time out and hand messages to the application, under loss, repetition, delay, reordering and eviction |
| `MeshNetwork.EndToEndIntegrity` | src/espnow_mesh.cpp:535-802 | every message a node queues has exactly the type and the bytes its origin passed to the send call under that id, and a directed payload is queued only at its destination |
| `MeshNetwork.PoppedIsFaithful` | src/espnow_mesh.cpp:241-250 | and so has every message the application takes, and it gets one exactly when one waits |
| `MeshNetwork.FloodInvariant` | src/espnow_mesh.cpp:621-644 | everything on the air, fragments and node information, passes every check, carries its origin's body, and has ttl + hops equal to its origin's ttl, with hops the number of relays crossed |
| `FloodControl.RelaySpendsTtl` | src/espnow_mesh.cpp:625-644 | what is relayed had more than one unit of ttl and has one less |
| `FloodControl.CopiesBounded` | src/espnow_mesh.cpp:646-694 | one relayed frame causes at least one and at most six transmissions |
| `FloodControl.EventsLower` | src/espnow_mesh.cpp:621-694 | each delivery or loss lowers the ttl-weighted measure of what is in flight, whatever is relayed in up to six transmissions |
| `FloodControl.FloodsQuiesce` | src/espnow_mesh.cpp:621-694 | in every run the deliveries and losses are bounded by the measure at the start and the number of transmissions nodes make on their own account |
| `FloodControl.QuietIsZero` | src/espnow_mesh.cpp:621-694 | the measure is zero exactly when nothing is in flight |
| `FloodControl.AcceptedOncePerHorizon` | src/espnow_mesh.cpp:580-621 | whatever a node receives, sends, announces, times out and delivers in between, it accepts, and hence relays, a frame key at most once until more than 512 keys or more than 30 s have gone by |
| `FloodControl.EffectIsAcceptance` | src/espnow_mesh.cpp:580-621 | a frame that changes the node or is relayed was accepted and remembered |
| `TextPackets.TextPackets` | pc_app/mesh_lab/controller.py:24-43 | what the packets carry, in order, is the text: in one chat packet up to 400 bytes; else a start with size and count, chunks of 32 bytes numbered from zero, the last one shorter, and an end with the hash; each with its own id. A bad destination, ttl or length is an error |
| `TextPackets.CutChunks` | pc_app/mesh_lab/controller.py:34 | the text is cut into consecutive chunks of 32 bytes, the last one shorter |
| `TextPackets.PartsDiffer` | pc_app/mesh_lab/controller.py:36-42 | no two packets of a text share an end-to-end id |
| `TextPackets.ChunksJoin` | pc_app/mesh_lab/controller.py:34-40 | the chunks joined in order are the text |
| `TextSenders.Sender.Receive` | pc_app/mesh_lab/controller.py:116-131 | an ok acknowledgement of the current packet by its destination, while one is awaited, moves the transfer on, and nothing else changes it |
| `TextSenders.Sender.Tick` | pc_app/mesh_lab/controller.py:299-311 | a packet is offered exactly when none is awaited and its time has come, and awaited for 5 s, plus one for each retry, if the link takes it; an acknowledgement overdue counts a retry and backs off by 0.2 s for each, or fails the transfer at the fifth |
| `TextSenders.Sender.Stop` | pc_app/mesh_lab/controller.py:211-215 | stopping cancels a transfer that is under way and no other |
| `TextSenders.AccountedInEveryRun` | pc_app/mesh_lab/controller.py:116-131 | in every run the log of taken and confirmed packets matches index, retry count and awaited flag |
| `TextSenders.DeliveredMeansConfirmed` | pc_app/mesh_lab/controller.py:116-131 | delivered holds exactly when the destination confirmed every packet in order, each directly after the link took it; and in every run the link takes no packet more than five times |
| `TextSenders.ChangeIsProgress` | pc_app/mesh_lab/controller.py:299-311 | whatever changes a transfer lowers its measure |
| `TextSenders.TransfersEnd` | pc_app/mesh_lab/controller.py:299-311 | in every run a transfer of n packets changes at most 11n times |
| `TextReceivers.TextReceiver.ReceiveLongText` | pc_app/mesh_lab/controller.py:141-179 | each event changes the assemblies as specified, within eight assemblies of bounded size, and appends the text it verifies |
| `TextReceivers.TextReceiver.Start` | pc_app/mesh_lab/controller.py:146-155 | a valid start opens an empty assembly if there is room, or refreshes one that exists and keeps its chunks |
| `TextReceivers.TextReceiver.Chunk` | pc_app/mesh_lab/controller.py:156-167 | a chunk with an index in range and at most 32 bytes is stored, and any chunk refreshes its assembly |
| `TextReceivers.TextReceiver.End` | pc_app/mesh_lab/controller.py:168-179 | an end closes an assembly that has all chunks, appending the text if length and hash agree; a text that is not UTF-8, or one with a chunk missing, leaves it open |
| `TextReceivers.OutcomeIs` | pc_app/mesh_lab/controller.py:168-179 | a text is verified exactly if no chunk is missing, size and hash are as announced and it is UTF-8, and then it is the chunks joined |
| `TextReceivers.TextReceiver.Append` | pc_app/mesh_lab/controller.py:62 | the list keeps the last two hundred messages |
| `TextReceivers.TextReceiver.Prune` | pc_app/mesh_lab/controller.py:317 | exactly the assemblies untouched for 120 s go |
| `TextReceivers.CountIsComplete` | pc_app/mesh_lab/controller.py:168-169 | having as many chunks as announced means having every chunk |
| `TextReceivers.SentIsGenuine` | pc_app/mesh_lab/controller.py:33-43 | what the sender builds is genuine for the receiver |
| `TextReceivers.GenuineEvent` | pc_app/mesh_lab/controller.py:141-179 | a genuine event keeps an assembly genuine, never takes chunks from an unfinished one (a repeated start included), and completes the text exactly as an end that finds all chunks |
| `TextReceivers.VerifiedTextIsSentText` | pc_app/mesh_lab/controller.py:141-179 | in every run, whatever is lost, repeated or reordered and whatever else arrives, each text completed under an ident is the sent text, completed exactly by the ends that find all chunks |
| `ProbeRuns.ProbeRun.IsDue` | pc_app/mesh_lab/model.py:45-47 | a ping is due only in a running run with none pending, below the count and not before its time |
| `ProbeRuns.PlanOf` | pc_app/mesh_lab/model.py:24-33 | a run has a plan exactly if destination, count, interval and time-out are in range |
| `ProbeRuns.ProbeRun.Submitted` | pc_app/mesh_lab/model.py:49-52 | the tag becomes pending, the count grows, and the next ping waits for the interval |
| `ProbeRuns.ProbeRun.Receive` | pc_app/mesh_lab/model.py:54-79 | only a pong of the destination with a pending tag is consumed |
| `ProbeRuns.ProbeRun.Tick` | pc_app/mesh_lab/model.py:81-87 | exactly the pings pending for the time-out become lost samples |
| `ProbeRuns.TickTimesOut` | pc_app/mesh_lab/model.py:81-91 | exactly the pings as old as the time-out go, each with a numbered lost sample, and the run is complete when all pings are sent and none is pending |
| `ProbeRuns.ProbeRun.Cancel` | pc_app/mesh_lab/model.py:93-97 | what is pending is counted as cancelled and the run stops |
| `ProbeRuns.Prober.Tick` | pc_app/mesh_lab/controller.py:288-298 | a due ping is submitted under a tag the run has never seen, while fewer than 2^32 tags were issued |
| `ProbeRuns.ConservedInEveryRun` | pc_app/mesh_lab/model.py:45-109 | in every run sent = finalized + pending + cancelled, at most one ping is pending, and as many different tags are finished as pings are finalized or cancelled |
| `ProbeRuns.FinalizedOnce` | pc_app/mesh_lab/model.py:54-97 | each tag leaves the pending pings at most once in a run |
| `ProbeRuns.SubmittedConserves` | pc_app/mesh_lab/model.py:49-52 | a submission keeps the sums exactly when its tag is not pending |
| `ProbeRuns.CountsMoveExactly` | pc_app/mesh_lab/model.py:54-109 | received grows exactly on a timely, intact pong of the destination for the pending ping; late, repeated, foreign or local events change neither received nor lost |
| `ProbeRuns.TickLeavesYoung` | pc_app/mesh_lab/model.py:81-87 | after a tick no ping has been pending for the time-out |
| `ReliableSessions.MakeMessages` | pc_app/lpwa_gui/protocol.py:236-340 | start, then every shard of the encoding exactly as encoded, end; shard k - 1 is in place k, or multiples of 7 modulo 33 and of 8 modulo 35 if interleaved; an unknown profile or a text over 1000 bytes is an error |
| `ReliableSessions.WireOrder` | pc_app/lpwa_gui/protocol.py:260 | a permutation of the shard indices: in order, or multiples of the first coprime step, which is 7 for 33 shards and 8 for 35 |
| `ReliableSessions.AnswerNack` | pc_app/legacy_app.py:3717-3745 | one repair for each listed index that exists, carrying that shard |
| `ReliableSessions.DecodeReliable` | pc_app/lpwa_gui/protocol.py:393-409 | garbled and wrongly sized shards are skipped, and any error yields nothing |
| `ReliableSessions.ReliableReceiver.FindOldest` | pc_app/legacy_app.py:1525-1531 | the scan finds a session with the least update time |
| `ReliableSessions.ReliableReceiver.EnsureSessionCapacity` | pc_app/legacy_app.py:1522-1541 | at most one session is evicted, one that was updated longest ago, and only for a new session when 24 exist |
| `ReliableSessions.ReliableReceiver.TryFinalize` | pc_app/legacy_app.py:3561-3661 | a restored payload is shown and the session completed; otherwise the missing shards are requested if allowed, if the link takes it and the last request is 500 ms ago, or the session is given up |
| `ReliableSessions.ReliableReceiver.HandleReliablePayload` | pc_app/legacy_app.py:3502-3711 | payloads without an id or of a session completed within 30 s change nothing; any other changes the sessions as specified. Missing shards are requested exactly when an end, or a repair after the end, restores nothing, a source is known, shards are absent, the last request is 500 ms ago and the link takes a new one, which then lists exactly the absent shards in ascending order |
| `ReliableSessions.HandlingAsks` | pc_app/legacy_app.py:3621-3650 | that rule of requesting for the specified handling of every payload |
| `ReliableSessions.TouchedTakes` | pc_app/legacy_app.py:3512-3560 | a session takes from a payload its source, its meta data, its mark of a start or an end, or its shard, and the time; a payload without a session opens an empty one |
| `ReliableSessions.DecidesExactly` | pc_app/legacy_app.py:3697-3711 | decoding is tried at an end, when a shard between start and end makes as many as the data has, and when a repair arrives after the end; only before the end is nothing requested |
| `ReliableSessions.ReliableReceiver.PruneRxSessions` | pc_app/legacy_app.py:1448-1491 | exactly the sessions and completions older than 30 s go |
| `ReliableDeliveries.SentIsGenuine` | pc_app/lpwa_gui/protocol.py:236-390 | all packets and repairs of a message are genuine |
| `ReliableDeliveries.CodedAgrees` | pc_app/lpwa_gui/reliable_codec.py:72-84 | a shard depends on its index and not on the number of parity shards |
| `ReliableDeliveries.RestoresExactly` | pc_app/legacy_app.py:3561-3580 | decoding a genuine session yields the sent bytes or nothing, and the bytes exactly when its shards are recoverable in the assumed profile, even if the start was lost |
| `ReliableDeliveries.NackListsAbsent` | pc_app/legacy_app.py:3621-3638 | a request lists exactly the indices of the assumed profile that have not arrived |
| `ReliableDeliveries.OutcomeOfPayload` | pc_app/legacy_app.py:3561-3711 | what one genuine payload does: keep the session; show exactly the sent bytes if recoverable; request exactly the absent shards, if the link takes it and the last request is 500 ms ago; or give up |
| `ReliableDeliveries.GivenUpBeforeEnd` | pc_app/legacy_app.py:3697-3700 | a started session that reaches as many shards as the data has before its end, by a chunk or a repair, is closed at once, and its bytes are shown exactly if the shards are recoverable |
| `ReliableDeliveries.LossThatGivesUp` | pc_app/legacy_app.py:3697-3700 | a concrete loss in the default profile for which such a session is thrown away with nothing shown |
| `ReliableDeliveries.ShownWhenTried` | pc_app/legacy_app.py:3680-3711 | a genuine payload has a message shown exactly if the session is recoverable with it and it is an end, a shard between start and end, or a repair after the end |
| `ReliableDeliveries.LateChunkKept` | pc_app/legacy_app.py:3680-3703 | a chunk after the end is stored, and nothing is shown or requested |
| `ReliableDeliveries.RecoverableTimesOut` | pc_app/legacy_app.py:1448-1491 | so a session that such a chunk makes recoverable is dropped after 30 s with nothing shown or requested, if nothing more of it arrives |
| `ReliableDeliveries.GarbledNotRequested` | pc_app/legacy_app.py:3621-3638 | a shard that arrived garbled is neither usable nor requested |
| `ReliableDeliveries.RequestCoversUnusable` | pc_app/legacy_app.py:3621-3638 | a request covers every unusable shard exactly when all that arrived have a text form and the right size |
| `ReliableDeliveries.NothingAbsentAtEnd` | pc_app/legacy_app.py:3705-3711 | an end that finds every index present closes the session without a request, and shows something exactly if the usable shards are recoverable |
| `ReliableDeliveries.GarbledSessionGivenUp` | pc_app/legacy_app.py:3705-3711 | with every index present and more shards garbled than there is parity, the end gives the session up with nothing shown or requested |
| `ReliableDeliveries.RestoresSentBytesOrNothing` | pc_app/legacy_app.py:3502-3711 | in every run, whatever is lost, repeated or reordered and whatever else arrives, everything shown under the id of a message is exactly its bytes |
| `ReliableDeliveries.ShownOncePerWindow` | pc_app/legacy_app.py:3508-3510 | in every run nothing is shown twice under one id within 30 s, whatever the packets are |

## Left out

- ESP-IDF, Wi-Fi, FreeRTOS, serial ports, clocks and random numbers: parameters of the calls or nondeterministic steps.
- Processing of received frames from inside the waiting loops (`cooperativeDelay`), and the jitter of the delays: every frame is processed to its end. The build without unicast routing is not modelled either.
- Node records, what node information says beyond its sender, peers of the driver and most statistics counters.
- MeshNodes.EspNowMesh.SendPayload: how often each fragment is tried is the length of the parameter that says what happens to its transmissions, and not tied to the configured repetitions.
- MeshNetwork.InvariantInEveryRun: frames forged outside the mesh are not part of these runs, and a node issues fewer than 2^32 - 1 ids.
- DuplicateFilters.DuplicateFilter.Seen: an entry left alone for 2^32 ms or longer may be taken for young; the exact direction is stated for ages below that.
- FloodControl.FloodsQuiesce: a transmission reaches a node at most once; repetition of one transmission by the medium is covered by `MeshNetwork`, not here.
- TransmitGate.OneOutstandingInEveryRun: runs without recovery and without lost callbacks; recovery has its own lemmas.
- The received mask of a reassembly slot is a set of indices instead of the bits of a 16-bit word.
- A MAC address is a number with zero for the zero address; the SDK's pairing of addresses with peers is not modelled.
- The field tables are passed to the codec as a value that satisfies `Built`, instead of being module globals.
- `decode_shards` on values that are not bytes; Python's dynamic types elsewhere appear as optional fields.
- JSON, base64 and SHA-256: base64 is a partial inverse (`Encoded`), the hash an arbitrary function, and a text is the sequence of its UTF-8 bytes.
- The order of a Python dictionary: where it decides a tie, the result is stated for either choice.
- Floating point: times of the PC programs are reals; rounding of displayed values is left out.
- TextReceivers.VerifiedTextIsSentText: speaks of runs in which the packets under one ident are those of one text; it does not need the hash to be collision-free, and display exactly once under unlimited replay is not promised.
- Chat packets on the receiving side (`chat_seen`) and the sender's adaptation, statistics and result messages of the 1 KB session.
- ReliableDeliveries.ShownOncePerWindow: assumes a clock that does not go back.
- The firmware's BLE relay and JSON bridge, the user interfaces, the HTTP server, firmware jobs and the topology view.
