# ChironDB: verified models

A Dafny model of the parts of ChironDB whose correctness is hardest to see, and proofs of what they promise.
`dafny verify dfyconfig.toml` checks the whole project. Each module is a file of the same name.

**Graph adjacency.** `TaggedNeighbors`, `RowChunking`, `Artifact`, `ArtifactAcceptance`, `GroupedSections`, `Namespaces`,
`EdgeTuples`, `EdgeColumns`, `EdgeOverflow`, `EdgeGroups`, `EdgeDivision`, `AdjacencyBuilder`, `BuildAcceptance`,
`AdjacencyFile`, `WriteAcceptance`, `LoadSoundness` and `FileRewrite` model the adjacency file from its bytes up: LEB128
neighbours, section table, chunk-aligned groups, columns, greedy overflow chains, builder, writer and loader. The loader is written
separately from the writer. `BuildAcceptance.BuildAccepts` and `WriteAcceptance.WriteAccepts` say exactly what is built
and written, `AdjacencyFile.AdjacencyRoundTrip` that the loader undoes the writer, `LoadSoundness.OpenSound` that it
accepts nothing the builder would not have made, `AdjacencyBuilder.BuildConserves` that the builder loses and invents
nothing, and `EdgeDivision.LoadedRowsGreedy` that the loader accepts one division of each row only.

**Audit log.** `AuditProtocol` is a state machine over the atomic steps of appenders, group committer, frontier freezes,
rotation, shutdown, crashes and reopening; every interleaving is a run. `AuditTail` models the hash chain and the repair
of a torn tail on bytes, `AuditChain` what the chain protects, and `Utf8Text` which bytes are text.

**Encrypted files.** `Envelope` and `RandomAccess` model the chunked envelope and its whole-file, ranged and streaming
readers, `EnvelopeBinding` what ties a frame to its file and place, `ChunkCache` the two-queue second-chance cache,
`CacheClock` which chunks it gives up, `CachedReads` ranged reads through it, `KeyRotation` and `TreeRotation` the
resumable key rotation, and `TreeDigest` what its digest can tell apart.

**Admission, search, properties.** `Admission` and `AdmissionEntry` model the two-resource allocator with fair shares,
`TextIndex` and `PostingMerge` the incremental text index and its merge, `TextSearch` and `TextScores` the two searches
built on them and what they return. `JsonValues`, `JsonParsing`, `Bitmaps`, `PropertyColumns`, `PropertyTable`,
`PropertyDirectory`, `PropertyFile`, `PropertyAcceptance`, `PropertyLimits` and `PropertyCodec` model the property
columns of edges, from documents to a file and back. `Estimator`, `EstimatorHops` and `CalibrationCover` model bounded
probes and calibration envelopes.

**Publication and identity.** `Publication` models publishers that replace the manifest file under a lock, with failing
operations, process deaths and power losses. `BuildIdentity` models the stream that identifies a build's input.
`Wrappers`, `Bytes` and `Ordering` hold what all of them share.

## How the world is modelled

- `usize` is 64 bits. Lengths and counters are unbounded integers; casts, saturation and wrap-around are written out
  where the code has them.
- A rejection is one outcome: the error messages carry no data that is modelled.
- AES-256-GCM, SHA-256, CRC32C, UTF-8 validity of stored names and JSON text are function parameters with the laws the
  proofs need. The laws of JSON text are those of `serde_json` with the features the workspace enables: a recursion limit
  of 128, `raw_value` (`chirondb-core/Cargo.toml:53`), and doubles that survive (`chirondb-types/Cargo.toml:11`). Where a
  law could be unsatisfiable, a lemma gives functions that satisfy it.
- A successful `sync_all` makes everything written so far durable; a failed one makes nothing durable. A power loss keeps a
  prefix of what was appended to a log and of what was renamed in a directory.
- Collections, tenants, files and threads are numbers. BM25 weights are abstract reals.
- Objects keep their fields in the iteration order of their map; nothing depends on that order being sorted.
- Memory admission may refuse an operation before it changes anything and is otherwise left out.

## Where the code does less than one might expect

Each of these is proved, with the exact condition under which the expected property holds.

- `verify_file` accepts an envelope of 2^32 chunks that `decrypt_bytes` rejects (`Envelope.VerifiedDecrypts`,
  `Envelope.CounterOverflows`).
- An audit rotation that fails between creating the new segment and synchronizing its directory lets later durable
  appends be acknowledged in a file a power loss can forget (`AuditProtocol.RiskIsExact`,
  `AuditProtocol.TornRotationLosesAck`).
- Tail repair refuses a log whose torn frame was cut inside a multi-byte character, which can happen exactly when a
  line is not ASCII (`AuditTail.RepairExact`, `AuditTail.EveryCutExact`, `AuditTail.SplitCharacterBlocksRepair`).
- A key rotation interrupted inside an atomic write leaves a temporary file that no rerun gets past: written for a file,
  it fails the journal check; written for the journal itself, it passes that check and fails the rewrapping
  (`TreeRotation.RerunExact`, `TreeRotation.LeftoverBlocksResume`, `TreeRotation.JournalCrashBlocks`). Opening the
  database would remove the file (`db/startup.rs:68`), but once a journal exists it demands a completed rotation first
  (`db/startup.rs:5`). After a crash in the first write of the journal there is none yet, so opening the database before
  the rerun clears the way.
- A key rotation over a tree without any envelope does everything right and then fails (`TreeRotation.RerunExact`,
  `TreeRotation.PlainTreeNeverFinishes`).
- Insertions without hits in between can still change the main queue of the cache, exactly when a chunk on probation was
  hit before them (`ChunkCache.ScanExact`, `ChunkCache.HitThenScanPromotes`).
- Passing the fair-share test does not imply fitting the total when another tenant has outgrown the share it is left with
  (`Admission.ShareExact`, `Admission.FairShareFitsTotal`, `Admission.LoneTenantTakesAll`).
- With nothing in use, waiters can still keep each other out: a request enters only if every waiting tenant and every
  waiting collection could be given as much, so two tenants that each ask for more than half of the memory both wait
  until one gives up (`AdmissionEntry.IdleExact`, `AdmissionEntry.IdleStall`).
- With a capacity of 2^64 - 1 bytes the saturating counters lose track and a release aborts (`Admission.CapacityExact`).
  The pool of the process clamps its capacity to 4 GiB (`graph_admission.rs:24` and `graph_admission.rs:71-73`), so only
  the private constructor can be given such a capacity.
- A property document with a value nested 128 deep, or with an object whose least key is the `serde_json` marker of raw
  values, is built and written, and its file does not open again (`PropertyFile.PropertyRoundTrip`,
  `PropertyLimits.DeepValueBlocksOpen`, `PropertyLimits.MarkedValueBlocksOpen`).
- The logical digest of a key rotation takes an audit record that holds a newline for two records
  (`TreeDigest.AuditLinesExact`, `TreeDigest.NewlineJoins`); no record the code writes holds one.
- A publication whose directory synchronization failed is reported as successful and can be undone by a power loss; one
  whose reading back failed as well is reported as failed and is installed (`Publication.OkSurvivesExact`,
  `Publication.OkCanBeLost`, `Publication.ErrExact`, `Publication.ErrCanBeInstalled`).

## Model

| member | source | states |
|---|---|---|
| `TaggedNeighbors.EncodeUleb128` | chirondb-core/src/graph_group.rs:799-811 | the writing loop appends exactly the shortest LEB128 form of the value |
| `TaggedNeighbors.AccumulateUleb128` | chirondb-core/src/graph_group.rs:813-838 | its accumulating loop yields the value of the bytes if and only if the continuation bits and the tenth byte are as they must be |
| `TaggedNeighbors.DecodeCanonicalUleb128` | chirondb-core/src/graph_group.rs:813-838 | the reading loop accepts a byte string exactly when it is terminated, fits 64 bits and is the shortest form, and returns its value |
| `TaggedNeighbors.UlebRoundTrip` | chirondb-core/src/graph_group.rs:799-838 | every 64-bit value decodes from its own encoding, which has at most ten bytes |
| `TaggedNeighbors.UlebLenExact` | chirondb-core/src/graph_group.rs:665-679 | the length predicted from the significant bits is the length written |
| `TaggedNeighbors.ZigzagEncode` | chirondb-core/src/graph_group.rs:840-846 | zigzag decoding undoes zigzag encoding on every signed 64-bit delta |
| `TaggedNeighbors.ZigzagOnto` | chirondb-core/src/graph_group.rs:840-846 | and encoding undoes decoding, so the two are inverse bijections |
| `TaggedNeighbors.DecodeEncoding` | chirondb-core/src/graph_group.rs:649-707 | self-delimiting: an encoded neighbour followed by any bytes decodes to itself and its own length |
| `TaggedNeighbors.EncodingOfDecoded` | chirondb-core/src/graph_group.rs:681-707 | canonical: every accepted byte string is the encoding of the value it decodes to |
| `TaggedNeighbors.PredictedLength` | chirondb-core/src/graph_group.rs:665-679 | the predicted length equals the encoded length, between 2 and 11 |
| `TaggedNeighbors.NeighborColumnRoundTrip` | chirondb-core/src/graph_group.rs:579-647 | a whole neighbour column with its offsets reads back, entry for entry |
| `RowChunking.PrefixCountMaximal` | chirondb-core/src/graph_edge.rs:1742-1761 | the greedy prefix fits a chunk and cannot take one more entry |
| `RowChunking.MaximalEdgePrefix` | chirondb-core/src/graph_edge.rs:1742-1761 | the counting loop returns the greedy prefix length |
| `RowChunking.FillChunk` | chirondb-core/src/graph_edge.rs:1682-1712 | the inner packing loop takes the greedy number of entries, at least one |
| `RowChunking.PackOverflowChunks` | chirondb-core/src/graph_edge.rs:1682-1712 | the packing loops produce the greedy division of a suffix into chunks |
| `RowChunking.WrittenRowAccepted` | chirondb-core/src/graph_edge.rs:1856-1926 | what the writer stores is the whole row again and passes the chunking tests of the loader |
| `RowChunking.RowDivisionUnique` | chirondb-core/src/graph_edge.rs:1382-1396 | the acceptance test holds of an inline part and chunks if and only if these are the ones the greedy writer makes of their concatenation |
| `RowChunking.AcceptedDivisionsAgree` | chirondb-core/src/graph_edge.rs:1856-1926 | two stored forms of one row that pass the test are the same form |
| `RowChunking.PackLeast` | chirondb-core/src/graph_edge.rs:1682-1712 | no division of a row into consecutive parts that each fit a chunk has fewer parts than the greedy one |
| `EdgeDivision.DecodedTupleLength` | chirondb-core/src/graph_edge.rs:1784-1854 | a decoded tuple used exactly the bytes its entry is counted for, so the stated length of a chunk is that of its entries |
| `EdgeDivision.ChainDivision` | chirondb-core/src/graph_edge.rs:1302-1411 | a chain that decodes is divided into maximal non-empty chunks, and its total is what they use |
| `EdgeDivision.LoadedRowAccepted` | chirondb-core/src/graph_edge.rs:1856-1926 | for every row and direction of a group the loader accepts, the inline part and the chunks in the file pass the acceptance test and join to the decoded row |
| `EdgeDivision.LoadedRowsGreedy` | chirondb-core/src/graph_edge.rs:882-986 | hence every row of an accepted group is stored exactly as the greedy writer divides it, inline part and chunks |
| `EdgeDivision.LoadedDivisionsAgree` | chirondb-core/src/graph_edge.rs:882-986 | two accepted groups with the same rows store every row in the same inline part and the same chunks |
| `EdgeDivision.ChunkOfDecoded` | chirondb-core/src/graph_edge.rs:1302-1411 | canonical: a chunk that decodes is byte for byte the one written for its entries |
| `EdgeDivision.LoadedPayloads` | chirondb-core/src/graph_edge.rs:1131-1411 | the overflow bytes of every row of an accepted group are the tuples of the chunks the writer makes of it |
| `EdgeDivision.LoadedPayloadsAgree` | chirondb-core/src/graph_edge.rs:1131-1411 | two accepted groups with the same rows hold the same overflow bytes for each |
| `Artifact.ArtifactRoundTrip` | chirondb-core/src/graph_artifact.rs:110-342 | every artifact the writer accepts opens, and each section is found under its id with its bytes, count and alignment |
| `Artifact.TableAccepted` | chirondb-core/src/graph_artifact.rs:110-229 | the section table of a written file passes every structural test: order, bounds, alignment, tiling |
| `Artifact.SectionReads` | chirondb-core/src/graph_artifact.rs:57-86 | reading a section of an opened artifact returns what was written under its id |
| `Artifact.SectionFound` | chirondb-core/src/graph_artifact.rs:53-86 | the same from the unordered list of sections handed to the writer |
| `Artifact.SectionMissing` | chirondb-core/src/graph_artifact.rs:53-55 | a section that is found was handed to the writer |
| `ArtifactAcceptance.TilingExact` | chirondb-core/src/graph_artifact.rs:110-229 | the sorted section ranges tile the file if and only if no two sections overlap and one of them ends where the file does |
| `ArtifactAcceptance.OpenExact` | chirondb-core/src/graph_artifact.rs:110-229 | a file opens if and only if its bytes state the magic, version 1, allowed flags, its own length, 1 to 64 sections and the checksum, and its table lists known sections by ascending id, none of the required missing, on multiples of eight between table and end, without overlap and up to the end; what opens are the flags and entries stated |
| `GroupedSections.OpenPlacedFrame` | chirondb-core/src/graph_group.rs:270-411 | a frame laid down at its chunk boundary passes the checks of the loader and opens as itself |
| `GroupedSections.GroupedSectionRoundTrip` | chirondb-core/src/graph_group.rs:207-411 | a written grouped section loads as its groups: counts, payloads and order, at any chunk-aligned place in the file |
| `Namespaces.NamespaceIndexRoundTrip` | chirondb-core/src/graph_group.rs:67-205 | a written namespace index decodes to the namespaces and their row counts |
| `EdgeTuples.TupleReads` | chirondb-core/src/graph_edge.rs:1714-1740 | an overflow tuple followed by any bytes decodes to its entry and its length |
| `EdgeTuples.TupleLenBounds` | chirondb-core/src/graph_edge.rs:1763-1773 | a tuple takes between 12 and 27 bytes, so it always fits a chunk |
| `EdgeTuples.DecodeChunkTuples` | chirondb-core/src/graph_edge.rs:1131-1411 | the cursor loop over the payload of a chunk computes the recursive reading of its tuples |
| `EdgeTuples.TuplesRead` | chirondb-core/src/graph_edge.rs:1784-1854 | the tuples of a chunk read back, exactly as many as counted and nothing left over |
| `EdgeColumns.DirectionRoundTrip` | chirondb-core/src/graph_edge.rs:988-1129 | the offset, neighbour, id, type and weight columns of one direction decode to the rows |
| `EdgeOverflow.PartsFit` | chirondb-core/src/graph_edge.rs:1682-1712 | the chunks of a chain are the greedy ones: non-empty, within a chunk, together the suffix of the row |
| `EdgeOverflow.ArenaOffset` | chirondb-core/src/graph_edge.rs:1775-1782 | the chunk arena starts after the directory where its chunks fall on chunk boundaries of the frame |
| `EdgeOverflow.ChunkReads` | chirondb-core/src/graph_edge.rs:1131-1411 | a stored chunk decodes to its entries and its byte length |
| `EdgeOverflow.RecordAccepted` | chirondb-core/src/graph_edge.rs:1131-1411 | the chain record of a written group is within all structural bounds of the loader |
| `EdgeOverflow.OverflowRoundTrip` | chirondb-core/src/graph_edge.rs:1131-1411 | a written overflow group decodes to its chains in order, entry for entry, including chains over many chunks |
| `EdgeGroups.ExtendRows` | chirondb-core/src/graph_edge.rs:882-986 | the loop that extends rows in place appends each chain to its own row and changes no other |
| `EdgeGroups.ChainForRow` | chirondb-core/src/graph_edge.rs:1581-1680 | the chain stored for a row is exactly the suffix the writer cut off, or none |
| `EdgeGroups.RowRejoins` | chirondb-core/src/graph_edge.rs:1856-1926 | inline part and suffix make the row again, divided as the loader demands |
| `EdgeGroups.GroupRoundTrip` | chirondb-core/src/graph_edge.rs:873-986 | the frames of a group decode to its rows, both directions, inline parts and overflow chains rejoined |
| `AdjacencyBuilder.BuildConserves` | chirondb-core/src/graph_edge.rs:232-342 | the built adjacency holds every input group and row, with exactly the targets, ids, types and weights of the input entries on each side |
| `AdjacencyBuilder.BuildEstablishes` | chirondb-core/src/graph_edge.rs:232-342 | what the builder accepts is sorted without duplicates, resolves every neighbour, has distinct ids, total weights, agreeing mirrors and the remap of exactly the types in use |
| `AdjacencyBuilder.MirrorsExact` | chirondb-core/src/graph_edge.rs:2030-2141 | with distinct ids the mirror test holds if and only if both directions have the same local edges: id, group, source, target, type and weight |
| `AdjacencyBuilder.TypeListFacts` | chirondb-core/src/graph_edge.rs:232-342 | the type remap is ascending and holds a type if and only if some entry uses it |
| `BuildAcceptance.RowAcceptedExact` | chirondb-core/src/graph_edge.rs:1970-2028 | a row is normalised if and only if its node is known, every entry has a valid id, a type, a finite weight if any and a neighbour that resolves, and there is an incoming side only with the reverse index |
| `BuildAcceptance.GroupAcceptedExact` | chirondb-core/src/graph_edge.rs:232-342 | a group is normalised if and only if it has rows, no two for one node, and all of them are |
| `BuildAcceptance.SameStanding` | chirondb-core/src/graph_edge.rs:232-342 | the stored entries of a direction are as many as the given ones, repeat an id, mix weights and use a type exactly if those do |
| `BuildAcceptance.MirrorsHeld` | chirondb-core/src/graph_edge.rs:2030-2071 | the mirror test passes if and only if both directions store the same local edges in every namespace |
| `BuildAcceptance.BuildAccepts` | chirondb-core/src/graph_edge.rs:232-342 | the builder accepts an input if and only if no namespace is given twice, every group, row and entry is as it must be, no id occurs twice in a direction, all entries have a weight or none, under the reverse index both directions list the same local edges, fewer than 2^32 entries are given each way, and a remap has 1 to 65536 types |
| `BuildAcceptance.BuildKeepsEdges` | chirondb-core/src/graph_edge.rs:232-342 | what is built holds exactly the local edges given: namespace, id, source, target, type and weight |
| `AdjacencyFile.FileOpens` | chirondb-core/src/graph_edge.rs:563-812 | a written adjacency opens as the same adjacency |
| `AdjacencyFile.AdjacencyRoundTrip` | chirondb-core/src/graph_edge.rs:365-812 | for every input the builder accepts and the writer stores, opening the file succeeds and returns the normalised adjacency: namespaces, rows, order, types through the remap, weights, incoming side, split rows rejoined |
| `WriteAcceptance.RowSplit` | chirondb-core/src/graph_edge.rs:1581-1680 | the chain of an overflowing row has one chunk less than the row has parts, and at most half as many as the row has entries |
| `WriteAcceptance.GroupEncodes` | chirondb-core/src/graph_edge.rs:1439-1680 | a built group encodes if and only if each of its rows can be cut into at most 1025 parts that fit a chunk, and its frames then stay within bounds linear in rows and entries |
| `WriteAcceptance.IndexExact` | chirondb-core/src/graph_group.rs:67-108 | the namespace index is written if and only if there are at most 178956970 namespaces, no empty tenant name, fewer than 2^32 rows, and every name starts and ends within 32 bits |
| `WriteAcceptance.WriteAccepts` | chirondb-core/src/graph_edge.rs:365-561 | a built adjacency is written if and only if its namespaces fit the index and its rows can be stored; no other size check can fail |
| `WriteAcceptance.AdjacencyStored` | chirondb-core/src/graph_edge.rs:232-812 | every acceptable input is built, and what is built is written exactly when it fits and then opens as itself |
| `LoadSoundness.LoadedValid` | chirondb-core/src/graph_group.rs:270-464 | every group of a section that loads has the payload its width demands, and finite numbers where these are floats |
| `LoadSoundness.GroupSound` | chirondb-core/src/graph_edge.rs:882-986 | the rows of a group that decodes are by ascending known nodes, with valid entries in order on both sides, and no incoming side without the reverse index |
| `LoadSoundness.RemapExact` | chirondb-core/src/graph_edge.rs:563-812 | a remap with as many types as are used, all of them used, lists exactly the types in use |
| `LoadSoundness.OpenSound` | chirondb-core/src/graph_edge.rs:563-812 | whatever opens is as the builder makes it: namespaces in order under proper names, valid sorted rows, distinct ids, agreeing directions, the remap of exactly the types in use |
| `LoadSoundness.OpenedIsBuilt` | chirondb-core/src/graph_edge.rs:365-812 | an opened adjacency of fewer than 2^32 entries each way satisfies all that the builder guarantees, and written again opens as itself |
| `FileRewrite.OpenedFits` | chirondb-core/src/graph_edge.rs:365-812 | whatever opens is within every limit of the writer |
| `FileRewrite.OpenedRewrites` | chirondb-core/src/graph_edge.rs:365-812 | whatever opens, with fewer than 2^32 entries each way, can be written again, and what is written opens as the same adjacency |
| `LoadSoundness.OpenSections` | chirondb-core/src/graph_edge.rs:563-812 | an opened file has exactly the sections its remap, weights, reverse side and overflow flag call for |
| `AuditProtocol.StepKeeps` | chirondb-core/src/audit.rs:695-850 | every step of appenders, committer, freeze, rotation, shutdown, crash and reopening keeps the structure, and keeps acknowledged records unless it is a power loss at risk |
| `AuditProtocol.RunStructured` | chirondb-core/src/audit.rs:283-402 | in every run sequence, durable frontier, pending count, registry, waiters and signal agree with the files |
| `AuditProtocol.RegistryOfLog` | chirondb-core/src/audit.rs:1106-1184 | the recovery scan registers exactly the projections in the log, at their sequences |
| `AuditProtocol.AckedSurvive` | chirondb-core/src/audit.rs:695-850 | in every run whose power losses strike no state at risk, each append that returned Ok is in the log at its sequence |
| `AuditProtocol.AckedSurviveLinked` | chirondb-core/src/audit.rs:695-850 | in particular in every run without a rotation that fails after creating the new segment |
| `AuditProtocol.RiskIsExact` | chirondb-core/src/audit.rs:1000-1025 | a power loss can lose an acknowledged record if and only if the state is at risk: a record acknowledged in a segment whose directory entry was never synchronized |
| `AuditProtocol.TornRotationLosesAck` | chirondb-core/src/audit.rs:1000-1025 | a five-step run that acknowledges a record and then loses it |
| `AuditProtocol.ProjectedOnce` | chirondb-core/src/audit.rs:574-611 | a transaction projected any number of times has at most one success record, and exactly one once a projection returned Ok |
| `AuditProtocol.WakeupNotLost` | chirondb-core/src/audit.rs:886-959 | in every run, with the lock free, records pending and no error, the signal is pending or the committer is between clearing it and its synchronization |
| `AuditProtocol.PathDrains` | chirondb-core/src/audit.rs:886-959 | from such a state the steps of the committer alone are enabled and make everything written durable |
| `AuditProtocol.WaiterReleased` | chirondb-core/src/audit.rs:832-848 | in every reachable state a blocked appender gets its Ok after at most three steps of the committer, if the synchronization succeeds |
| `AuditProtocol.AppendAcknowledged` | chirondb-core/src/audit.rs:695-850 | in every run an open writer without an error puts a new record at the end of the log, in a new segment after a rotation, and the append gets its Ok at once or after the steps of the committer |
| `AuditProtocol.RetryAcknowledged` | chirondb-core/src/audit.rs:723-757 | a repeated projection writes nothing and gets the Ok and the sequence of the record in the log, at once if everything is durable, otherwise after the steps of the committer |
| `AuditProtocol.ChangedRetryRefused` | chirondb-core/src/audit.rs:723-757 | a repetition that says something else is refused, and nothing is written or acknowledged |
| `AuditProtocol.AppendRefused` | chirondb-core/src/audit.rs:695-722 | a closed or failed writer refuses every append and changes nothing |
| `AuditTail.LastNewline` | chirondb-core/src/audit.rs:1186-1261 | the scan of a block finds its last newline or that it has none |
| `AuditTail.FindTailStart` | chirondb-core/src/audit.rs:1186-1261 | the backward search in 4096-byte blocks returns the byte after the true last newline, and gives up if and only if the tail is longer than any frame |
| `AuditTail.VerifySegments` | chirondb-core/src/audit.rs:1098-1184 | the loop over segments computes the verification of the whole log |
| `AuditTail.ScanFileOfFrames` | chirondb-core/src/audit/reader.rs:76-130 | a file of whole frames passes exactly when its records continue the chain, and reports the state after them |
| `AuditTail.VerificationExact` | chirondb-core/src/audit.rs:1106-1184 | verification accepts a log, however it is divided into segments, if and only if it is one hash chain from the genesis hash, and reports the hash and sequence to resume from |
| `AuditTail.AppendExtends` | chirondb-core/src/audit.rs:1036-1088 | a record made from the reported state extends the chain |
| `AuditTail.RepairExact` | chirondb-core/src/audit.rs:1186-1261 | for any rotated log and any strict prefix of one more frame, repair succeeds if and only if the prefix ends between characters, and then keeps exactly the complete records, one that misses only its newline among them |
| `AuditTail.RepairedVerifies` | chirondb-core/src/audit.rs:1186-1261 | after a successful repair the log verifies with the state the writer resumes from |
| `AuditTail.EveryCutExact` | chirondb-core/src/audit.rs:1186-1261 | for any rotated log, every cut of the next frame can be repaired if and only if its line is ASCII, as it is when audit frames are encrypted |
| `AuditTail.SplitCharacterBlocksRepair` | chirondb-core/src/audit.rs:1186-1261 | a lawful codec and a chained log of any number of records whose next frame, cut inside a two-byte character, is a strict prefix the repair refuses |
| `AuditTail.LawfulCodec` | chirondb-core/src/audit.rs:1287-1330 | the laws assumed of the record encoding are met by a codec for logs of a million records, every line with a two-byte character |
| `AuditChain.VerifiedFields` | chirondb-core/src/audit.rs:1106-1184 | verification accepts a log, however divided, if and only if each record hashes to its hash, names the hash of the one before or the genesis hash of its format, and its sequence number, if any, counts it |
| `AuditChain.TamperEvident` | chirondb-core/src/audit.rs:1106-1184 | with a digest that tells contents apart, two chained logs of one length that end in one hash are the same log |
| `AuditChain.TamperEvidentCounted` | chirondb-core/src/audit.rs:1106-1184 | and of any lengths, if the last record has a sequence number |
| `AuditChain.BlankLineSkipped` | chirondb-core/src/audit/reader.rs:76-130 | a line of white space anywhere in a file changes nothing |
| `Utf8Text.Utf8Exact` | chirondb-core/src/audit/reader.rs:76-130 | the UTF-8 test on tails and lines passes if and only if the bytes are the text of a sequence of Unicode scalar values |
| `Envelope.CountMeans` | chirondb-core/src/encryption.rs:1152-1156 | the chunk count: chunks before the last are whole and the last holds the rest |
| `Envelope.FramesTile` | chirondb-core/src/encryption.rs:1158-1186 | the frames of consecutive chunks touch, from the end of the header to the end of the body |
| `Envelope.VerifyFile` | chirondb-core/src/encryption.rs:1540-1564 | the verification loop accepts exactly the files whose every frame opens and which end with the last one |
| `Envelope.DecryptLoop` | chirondb-core/src/encryption.rs:1443-1510 | the decryption loop over offsets computes the recursive decryption |
| `Envelope.ChunksLength` | chirondb-core/src/encryption.rs:1188-1219 | the chunks of a file from any one on hold the rest of the declared length |
| `Envelope.VerifiedDecrypts` | chirondb-core/src/encryption.rs:1443-1510 | whatever verification accepts, decryption returns as the concatenation of the chunks if and only if there are at most 2^32 - 1 of them |
| `Envelope.CounterOverflows` | chirondb-core/src/encryption.rs:1443-1564 | an envelope of 2^32 chunks exists that verifies and does not decrypt |
| `Envelope.SealedVerifies` | chirondb-core/src/encryption.rs:1369-1441 | a sealed body is accepted, and its chunks are the pieces of the plaintext |
| `Envelope.EncryptionRoundTrip` | chirondb-core/src/encryption.rs:1369-1510 | every encryption with a chunk size up to 4 MiB verifies as the pieces of its plaintext and decrypts to it |
| `Envelope.LawfulAead` | chirondb-core/src/encryption.rs:2402-2432 | the laws assumed of sealing and opening can be met |
| `EnvelopeBinding.NonceExact` | chirondb-core/src/encryption.rs:2434-2439 | two chunks of a file have one nonce if and only if they have one index |
| `EnvelopeBinding.AadExact` | chirondb-core/src/encryption.rs:2441-2457 | two chunks have the same associated data if and only if file type, file id, length, chunk size and index are the same |
| `EnvelopeBinding.EncryptExact` | chirondb-core/src/encryption.rs:1369-1441 | encryption succeeds if and only if the chunk size is between 1 and 2^32 - 1, the plaintext is shorter than 2^64 bytes and makes at most 2^32 - 1 chunks |
| `EnvelopeBinding.FrameOfEncryption` | chirondb-core/src/encryption.rs:1369-1441 | chunk i of the plaintext stands in frame i, sealed under the nonce and the associated data of index i |
| `EnvelopeBinding.FramesApart` | chirondb-core/src/encryption.rs:1369-1441 | no two frames of a file are sealed under one nonce or one associated data |
| `EnvelopeBinding.ForeignFrameRefused` | chirondb-core/src/encryption.rs:1188-1219 | with authentication a frame sealed for another index is refused where it stands |
| `EnvelopeBinding.SwapRefused` | chirondb-core/src/encryption.rs:1540-1564 | so a file with two frames exchanged, even of one length, does not verify |
| `EnvelopeBinding.AuthenticAead` | chirondb-core/src/encryption.rs:2402-2432 | the law of authentication can be met together with the others |
| `EnvelopeBinding.HeaderExact` | chirondb-core/src/encryption.rs:2351-2400 | a header is accepted if and only if the file starts with the header text of what it states: version 1, one of six file types, a key id of 1 to 128 bytes, a chunk size up to 4 MiB and a wrapped key of 48 bytes |
| `RandomAccess.ChunkIsSlice` | chirondb-core/src/encryption.rs:931-962 | a chunk decrypted on its own is the slice of the plaintext its index says |
| `RandomAccess.ReadRange` | chirondb-core/src/encryption.rs:850-893 | the range loop returns exactly that slice of the plaintext of any verified file, and refuses exactly the ranges outside it |
| `RandomAccess.ChunkReader.constructor` | chirondb-core/src/encryption.rs:1239-1280 | a reader starts before the first byte |
| `RandomAccess.ChunkReader.LoadChunk` | chirondb-core/src/encryption.rs:1282-1313 | loading advances to the next chunk, or reports the end exactly when the plaintext is used up |
| `RandomAccess.ChunkReader.Read` | chirondb-core/src/encryption.rs:1317-1333 | each read returns the next bytes of the plaintext, at most as many as asked, and none only at the end |
| `RandomAccess.ChunkReader.ReadAll` | chirondb-core/src/encryption.rs:1226-1333 | reading to the end with any buffer yields the whole plaintext |
| `ChunkCache.PersistentChunkCache.constructor` | chirondb-core/src/encryption.rs:591-595 | a new cache is empty and satisfies the invariant |
| `ChunkCache.PersistentChunkCache.Lookup` | chirondb-core/src/encryption.rs:596-604 | a lookup returns the content of the key if it is cached, marks it as hit, and changes no other content, no queue and no counter |
| `ChunkCache.PersistentChunkCache.RebalanceQueues` | chirondb-core/src/encryption.rs:653-687 | the two eviction loops end, keep the invariant and bring both queues within their limits |
| `ChunkCache.PersistentChunkCache.Shrink` | chirondb-core/src/encryption.rs:709-729 | the shrinking loop keeps invariant and limits and reaches its target |
| `ChunkCache.PersistentChunkCache.Store` | chirondb-core/src/encryption.rs:611-651 | insertion and refusal keep invariant and limits, and an insertion under pressure ends within the pressure target |
| `ChunkCache.PersistentChunkCache.Forget` | chirondb-core/src/encryption.rs:689-707 | exactly the chunks of the file are gone, the others as they were, invariant and limits kept |
| `ChunkCache.MainTurnProgress` | chirondb-core/src/encryption.rs:653-687 | each turn of the second-chance clock uses up a chance or shortens the queue, so rebalancing ends |
| `ChunkCache.InsertValid` | chirondb-core/src/encryption.rs:611-651 | insertion keeps the queues duplicate-free, disjoint and covering the map with true byte sums, and ends with both queues within their limits, and under pressure within the target |
| `ChunkCache.ShrinkValid` | chirondb-core/src/encryption.rs:709-729 | shrinking keeps the invariant and reaches its target |
| `ChunkCache.RemoveValid` | chirondb-core/src/encryption.rs:689-707 | forgetting a file keeps the invariant |
| `ChunkCache.RunWithin` | chirondb-core/src/encryption.rs:591-739 | every run of lookups, insertions, removals and shrinking keeps the invariant and both limits |
| `ChunkCache.EmptyWithin` | chirondb-core/src/encryption.rs:591-595 | the empty cache, where every run starts, satisfies them |
| `ChunkCache.ScanKeepsMain` | chirondb-core/src/encryption.rs:611-687 | without hits and pressure, any number of insertions leaves the main queue and its chunks untouched |
| `ChunkCache.PromotionExact` | chirondb-core/src/encryption.rs:653-687 | the probation loop promotes something if and only if some chunk was hit from which on the queue is over its limit; otherwise the main queue stays |
| `ChunkCache.InsertionExact` | chirondb-core/src/encryption.rs:611-687 | an insertion without pressure leaves the main queue untouched if and only if no chunk that has to leave probation for it was hit |
| `ChunkCache.ScanExact` | chirondb-core/src/encryption.rs:611-687 | no sequence of insertions of chunks up to the 4 MiB a file may use, however long, touches the main queue if and only if no chunk on probation was hit before it |
| `ChunkCache.ScanReaches` | chirondb-core/src/encryption.rs:611-687 | with a hit chunk on probation, some scan of such chunks reaches the main queue, at most three of them full |
| `ChunkCache.HitThenScanPromotes` | chirondb-core/src/encryption.rs:653-687 | a 4 MiB chunk that was hit goes to the main queue when a 4 MiB chunk and one of a byte come after it |
| `ChunkCache.HitsAgree` | chirondb-core/src/encryption.rs:591-651 | in every run whose insertions carry decrypted chunks a hit returns the decrypted chunk of its key |
| `CacheClock.ClockExact` | chirondb-core/src/encryption.rs:653-687 | the clock takes the fewest chunks that bring the main queue within its limit: those not hit, oldest first, and only when they are used up the hit ones, oldest first; all others stay with their content |
| `CacheClock.HitOutlastsUnhit` | chirondb-core/src/encryption.rs:653-687 | a hit chunk of the main queue is not taken while one there that was not hit is left |
| `CacheClock.HitsStayExact` | chirondb-core/src/encryption.rs:653-687 | all hit chunks of the main queue stay if and only if they fit the limit together |
| `CacheClock.ProbationExact` | chirondb-core/src/encryption.rs:653-687 | the probation loop lets go of the fewest chunks, oldest first: hit ones go to the main queue in order, the others are dropped, nothing else changes |
| `CacheClock.ShrinkExact` | chirondb-core/src/encryption.rs:709-729 | shrinking drops the fewest chunks from the front of probation and then of the main queue, hit or not |
| `CachedReads.EncryptedChunk` | chirondb-core/src/encryption.rs:931-962 | one chunk through the cache, hit or miss, is the decrypted chunk and the cache stays faithful, whatever other readers do while it is decrypted; the read fails exactly if nobody has the chunk and its insertion is not admitted |
| `CachedReads.ReadRangeCached` | chirondb-core/src/encryption.rs:850-962 | whatever a faithful cache holds, and whatever other readers do to it between chunks and during a miss, a range reads as that slice of the plaintext |
| `KeyRotation.RewrapKeeps` | chirondb-core/src/encryption.rs:1622-1660 | rewrapping an envelope the keyring opens succeeds and changes the key id and the wrapping only; nothing moves |
| `KeyRotation.VerifiedUnchanged` | chirondb-core/src/encryption.rs:1622-1660 | verification sees the same chunks after a rewrapping |
| `KeyRotation.PlaintextUnchanged` | chirondb-core/src/encryption.rs:1622-1660 | whole-file decryption says after a rewrapping what it said before |
| `KeyRotation.RewrapFramesKeep` | chirondb-core/src/encryption.rs:2272-2304 | rewrapping frames never fails, so the length test is unreachable; every frame keeps its length and plaintext and carries the active key |
| `KeyRotation.WalReads` | chirondb-core/src/encryption.rs:2206-2248 | a written log reads back frame for frame |
| `KeyRotation.WalRotation` | chirondb-core/src/encryption.rs:2272-2304 | rotating a log succeeds and every frame keeps its offset and its plaintext |
| `KeyRotation.RewrapWalFrames` | chirondb-core/src/encryption.rs:2272-2304 | the byte loop over a log computes the rewrapping of its frames |
| `TreeRotation.RewrapFileKeeps` | chirondb-core/src/encryption.rs:1673-1704 | rewrapping a good file of any kind succeeds, keeps it, and leaves only the active key in it |
| `TreeRotation.CanonicalKept` | chirondb-core/src/encryption.rs:1770-1838 | the logical digest cannot see a rewrapping |
| `TreeDigest.CanonicalExact` | chirondb-core/src/encryption.rs:1770-1838 | for digestible files of one kind the canonical content is the same if and only if the plaintext is: of the envelope, of every log frame in order, of the lines of the audit records, or the bytes |
| `TreeDigest.GoodFilesDigest` | chirondb-core/src/encryption.rs:1770-1838 | in particular for all files the final verification accepts |
| `TreeDigest.AuditLinesExact` | chirondb-core/src/encryption.rs:1770-1838 | the digest text of audit records tells their lines, and the records if none holds a newline |
| `TreeDigest.NewlineJoins` | chirondb-core/src/encryption.rs:1770-1838 | with a newline in a record, one record and two have one digest text |
| `TreeDigest.BeginExact` | chirondb-core/src/encryption.rs:1852-1901 | a run under a journal goes on if and only if the key is the one and every file has the plaintext for which the journal was written |
| `TreeDigest.FinishStepExact` | chirondb-core/src/encryption.rs:1852-1901 | a rotation ends if and only if every file is good, key and plaintexts are those of the journal, and the active key alone is referenced |
| `TreeRotation.RotationKeeps` | chirondb-core/src/encryption.rs:1852-1901 | however often a rotation is interrupted, every file keeps its plaintext, length and frames, and the tree its digest |
| `TreeRotation.GoodIsDigestible` | chirondb-core/src/encryption.rs:1770-1838 | a file the final verification accepts has a place in the logical digest |
| `TreeRotation.RerunExact` | chirondb-core/src/encryption.rs:1852-1901 | from every reachable state of a stopped rotation, a rerun that visits the files in any order completes if and only if no crash left a temporary file and the tree holds an envelope; then every file is kept, only the active key is referenced and the journal is gone |
| `TreeRotation.LeftoverBlocksResume` | chirondb-core/src/fs_util.rs:239-266 | a crash inside the replacement of a file makes the journal check of every rerun refuse |
| `TreeRotation.JournalCrashBlocks` | chirondb-core/src/fs_util.rs:239-266 | a crash inside the first write of the journal leaves a file the next run takes into its journal and then refuses, and so does every later run |
| `TreeRotation.PlainTreeNeverFinishes` | chirondb-core/src/encryption.rs:1852-1901 | on an empty tree the rotation passes every check but the last |
| `Admission.AdmitValid` | chirondb-core/src/graph_admission.rs:134-214 | admitting keeps totals and both maps equal to the sums over outstanding permits, within both capacities |
| `Admission.ReleaseValid` | chirondb-core/src/graph_admission.rs:238-251 | releasing a permit never underflows, never misses its key, and keeps the sums |
| `Admission.RunValid` | chirondb-core/src/graph_admission.rs:134-251 | so does every run from a state that satisfies them |
| `Admission.PoolInvariant` | chirondb-core/src/graph_admission.rs:134-251 | from the empty pool, after any arrivals, admissions, cancellations and releases |
| `Admission.CapacityExact` | chirondb-core/src/graph_admission.rs:304-417 | no run ever aborts if and only if neither capacity is 2^64 - 1, or only one byte of memory can be out at a time; otherwise a run of six operations underflows on release |
| `Admission.BoundedShares` | chirondb-core/src/graph_admission.rs:309-335 | if every key stays within a bound, the sum is within the bound times the keys in use |
| `Admission.ShareExact` | chirondb-core/src/graph_admission.rs:374-376 | for one resource, every amount a waiter could ask for that passes its tenant test fits the total if and only if the tenant has used up its share, or what the others hold leaves room for one share, or the capacity is 2^64 - 1 |
| `Admission.SharesKeptSafe` | chirondb-core/src/graph_admission.rs:309-335 | if every tenant in use is within its share, the others leave room for one |
| `Admission.FairShareFitsTotal` | chirondb-core/src/graph_admission.rs:304-335 | if every tenant in use is within capacity divided by contenders, a waiter that passes the tenant test also fits the total, for all capacities |
| `Admission.LoneTenantTakesAll` | chirondb-core/src/graph_admission.rs:304-335 | the premise is needed: a lone tenant takes everything and the next one, within its share, does not fit |
| `Admission.DistinctContenders` | chirondb-core/src/graph_admission.rs:337-372 | the two loops count the distinct keys in use or in the queue |
| `Admission.FirstMayEnter` | chirondb-core/src/graph_admission.rs:216-236 | the waiter found fits the total and both shares and nobody before it does; without one nobody does |
| `Admission.GraphAdmissionPool.constructor` | chirondb-core/src/graph_admission.rs:121-132 | a new pool is empty, with capacities of at least one byte |
| `Admission.GraphAdmissionPool.Join` | chirondb-core/src/graph_admission.rs:134-214 | joining appends one waiter with a fresh ticket, or changes nothing for a request that can never fit |
| `Admission.GraphAdmissionPool.TryAcquire` | chirondb-core/src/graph_admission.rs:134-214 | a pass of the waiting loop admits the ticket exactly when it is the first admissible one, and keeps the sums |
| `Admission.GraphAdmissionPool.FindAdmissible` | chirondb-core/src/graph_admission.rs:216-236 | the queue scan finds the first admissible waiter |
| `Admission.GraphAdmissionPool.CanEnter` | chirondb-core/src/graph_admission.rs:216-236 | the three tests of one waiter |
| `Admission.GraphAdmissionPool.InShare` | chirondb-core/src/graph_admission.rs:309-335 | the fair-share test of one waiter and key |
| `Admission.GraphAdmissionPool.GiveUpWaiting` | chirondb-core/src/graph_admission.rs:419-423 | a cancelled waiter leaves the queue and nothing else changes |
| `Admission.GraphAdmissionPool.ReleasePermit` | chirondb-core/src/graph_admission.rs:238-251 | dropping an outstanding permit gives its reservation back, without underflow |
| `AdmissionEntry.AdmissibleExact` | chirondb-core/src/graph_admission.rs:304-335 | a waiter passes the three tests if and only if the permits and it fit both capacities, and, if every tenant and every collection that holds or waits for a resource held as much of it as this one would, the capacity would cover it |
| `AdmissionEntry.EntryExact` | chirondb-core/src/graph_admission.rs:134-214 | the first waiter that may enter gets its permit and leaves the queue, the totals stay within capacity, and its tenant and its collection hold no more than an equal share; the attempt of anyone else changes nothing |
| `AdmissionEntry.NobodyEnters` | chirondb-core/src/graph_admission.rs:134-214 | where no waiter may enter, no attempt changes anything |
| `AdmissionEntry.IdleExact` | chirondb-core/src/graph_admission.rs:304-335 | with no permit outstanding a request passes if and only if, times the waiting tenants and times the waiting collections, it fits the capacity |
| `AdmissionEntry.IdleStall` | chirondb-core/src/graph_admission.rs:304-335 | two tenants that each wait for more than half of the memory keep each other out of an idle pool |
| `TextIndex.InsertExact` | chirondb-core/src/bm25.rs:73-108 | inserting a point that is not live gives the documents, postings and statistics of the live points and it |
| `TextIndex.RemoveExact` | chirondb-core/src/bm25.rs:110-142 | removing a live point with its own text never underflows a counter and gives those of the remaining points |
| `TextIndex.RunExact` | chirondb-core/src/bm25.rs:41-142 | every proper run keeps documents, postings, global and tenant statistics equal to those of the live points |
| `TextIndex.ExactUnique` | chirondb-core/src/bm25.rs:64-142 | the live points determine the whole field |
| `TextIndex.IncrementalEqualsRebuild` | chirondb-core/src/bm25.rs:73-142 | after any proper sequence of insertions and removals the field equals the one rebuilt from the live points |
| `TextIndex.AuthorizedStatistics` | chirondb-core/src/bm25.rs:225-286 | the counting loop of the authorised search over exactly the documents of one tenant yields the counts, length and frequencies the statistics of that tenant hold |
| `TextIndex.CountTerms` | chirondb-core/src/bm25.rs:225-286 | its inner loop adds one to the frequency of exactly the query terms the document has |
| `TextIndex.LiveTextIndex.constructor` | chirondb-core/src/bm25.rs:64-72 | a new index is that of no points |
| `TextIndex.LiveTextIndex.InsertPoint` | chirondb-core/src/bm25.rs:73-108 | inserting a point in place leaves the index of the live points and it, over all text fields |
| `TextIndex.LiveTextIndex.RemovePoint` | chirondb-core/src/bm25.rs:110-142 | removing it again in place leaves the index of the others |
| `PostingMerge.NextId` | chirondb-core/src/bm25.rs:303-356 | the smallest id at any list cursor |
| `PostingMerge.NextIsLeast` | chirondb-core/src/bm25.rs:303-356 | that id is the least one of the union above everything visited, and the lists that hold it are exactly those whose cursor stands on it |
| `PostingMerge.TakeId` | chirondb-core/src/bm25.rs:303-356 | the cursors on the id advance, and the score sums the weights of exactly the terms that hold it |
| `PostingMerge.Round` | chirondb-core/src/bm25.rs:303-356 | one round visits the next id of the union and pushes it once if admitted, or finds the union used up |
| `PostingMerge.RankPostings` | chirondb-core/src/bm25.rs:303-356 | the merge ends, visits each id of the union exactly once in ascending order (up to where it was told to stop), and counts and pushes each admitted id once with its full score |
| `TextSearch.Rank` | chirondb-core/src/bm25.rs:303-356 | over the lists of the query terms the corpus knows, a ranking that is not stopped pushes exactly the admitted ids of their union, in order and with their scores |
| `TextSearch.SearchTenant` | chirondb-core/src/bm25.rs:174-223 | the search within a tenant ranks against the statistics kept for it |
| `TextSearch.SearchAuthorized` | chirondb-core/src/bm25.rs:225-286 | the authorised search over exactly the documents of one tenant, which counts its own statistics, finds what the kept statistics would give |
| `TextSearch.SearchesAgree` | chirondb-core/src/bm25.rs:174-286 | a search within a tenant and an authorised search over exactly that tenant push the same ids with the same scores, for every query, filter and limit |
| `TextScores.ListsExact` | chirondb-core/src/bm25.rs:303-356 | the merged lists hold a document of the corpus if and only if it holds a query term, and its score adds one weight for every query term it holds, from the frequency in the corpus and in the document |
| `TextScores.FoundExact` | chirondb-core/src/bm25.rs:174-223 | a search within a tenant that is not stopped returns exactly the eligible live documents of the tenant with a query term, each with that sum over all its query terms |
| `TextScores.FoundAscends` | chirondb-core/src/bm25.rs:303-356 | in ascending order, so each once |
| `TextScores.FieldReadable` | chirondb-core/src/bm25.rs:64-142 | every index that is what its documents make it can be read so, with the documents numbered by position |
| `JsonValues.CanonExact` | chirondb-core/src/graph_edgeprop.rs:1233-1250 | two documents have one canonical form if and only if they differ in the order of object fields only, at any depth |
| `JsonValues.CanonIdempotent` | chirondb-core/src/graph_edgeprop.rs:1233-1250 | a canonical document is its own canonical form |
| `JsonParsing.DepthCanon` | chirondb-core/src/graph_edgeprop.rs:1233-1250 | the canonical form is as deep as its value |
| `JsonParsing.UnmarkedCanon` | chirondb-core/src/graph_edgeprop.rs:1233-1250 | and holds an object that starts with the marker of raw values exactly if its value has one with that least key |
| `JsonParsing.RereadExact` | chirondb-core/src/graph_edgeprop.rs:1034-1045 | the text of a canonical value parses to that value if and only if at most 127 containers stand inside each other and no object starts with the marker; otherwise the parser fails or gives another value |
| `Bitmaps.MarkRow` | chirondb-core/src/graph_edgeprop.rs:1259-1261 | setting a bit marks its row and no other |
| `Bitmaps.PackedUnique` | chirondb-core/src/graph_edgeprop.rs:1252-1261 | a bitmap is determined by the rows it marks |
| `Bitmaps.CountOnes` | chirondb-core/src/graph_edgeprop.rs:552-591 | counting whole bytes adds the difference of two ranks |
| `Bitmaps.ValidateBitmaps` | chirondb-core/src/graph_edgeprop.rs:841-1109 | the block loop accepts a pair of bitmaps if and only if nulls are present rows and no bit lies past the rows, and its checkpoints are the true ranks of the block starts |
| `Bitmaps.NonNullRank` | chirondb-core/src/graph_edgeprop.rs:552-591 | checkpoint, whole bytes and masked byte together give the naive count of earlier non-null rows, for all bitmaps |
| `PropertyColumns.DocumentLength` | chirondb-core/src/graph_edgeprop.rs:136-209 | the text of a document is two braces, every key, colon and value, and a comma between fields |
| `PropertyColumns.FieldsLenCanon` | chirondb-core/src/graph_edgeprop.rs:502-540 | sorting fields at any depth does not change that length |
| `PropertyColumns.ValueAt` | chirondb-core/src/graph_edgeprop.rs:136-209 | the value of a row stands in the compact list at the number of values before it |
| `PropertyColumns.RankCounts` | chirondb-core/src/graph_edgeprop.rs:552-591 | the rank counted from the bitmaps of a column is that number |
| `PropertyColumns.ColumnBitmaps` | chirondb-core/src/graph_edgeprop.rs:1085-1109 | the bitmaps of a built column are valid and count its values |
| `PropertyColumns.BuildColumn` | chirondb-core/src/graph_edgeprop.rs:136-209 | the row loop of the builder makes the bitmaps, the compact values and the kind of the column |
| `PropertyColumns.ScalarRoundTrip` | chirondb-core/src/graph_edgeprop.rs:1128-1214 | a scalar decodes from its bytes, signed integers through two's complement |
| `PropertyColumns.ItemExact` | chirondb-core/src/graph_edgeprop.rs:593-678 | a stored value reads back, JSON in canonical form, if and only if it is a string of a string column or parses back; otherwise reading fails |
| `PropertyColumns.ColumnReads` | chirondb-core/src/graph_edgeprop.rs:593-678 | any value of a written and readable column reads back by its compact index |
| `PropertyColumns.ScalarsPass` | chirondb-core/src/graph_edgeprop.rs:1111-1126 | the bytes of a scalar column pass the open check |
| `PropertyColumns.VariableExact` | chirondb-core/src/graph_edgeprop.rs:978-1059 | the offsets and data of a string or JSON column pass the open check if and only if every JSON value in it parses back |
| `PropertyTable.AllKeysMeans` | chirondb-core/src/graph_edgeprop.rs:136-209 | the column keys are ascending and exactly those some document uses |
| `PropertyTable.RestoredIsCanon` | chirondb-core/src/graph_edgeprop.rs:502-540 | asking every column in order gives the whole document, its fields and theirs in key order |
| `PropertyTable.BuiltItemFits` | chirondb-core/src/graph_edgeprop.rs:136-209 | no value of an admitted document is longer than the limit |
| `PropertyTable.ReadableExact` | chirondb-core/src/graph_edgeprop.rs:136-209 | the JSON columns of a table parse back if and only if every value of every document does |
| `PropertyDirectory.DirectoryRoundTrip` | chirondb-core/src/graph_edgeprop.rs:681-839 | a written column directory decodes to its descriptors |
| `PropertyFile.ValidateColumns` | chirondb-core/src/graph_edgeprop.rs:841-976 | the column loop accepts a file if and only if every column lies where the cursors stand, is readable, and no section byte is without an owner; each column gets its true checkpoints |
| `PropertyFile.ValidateColumnBitmaps` | chirondb-core/src/graph_edgeprop.rs:841-976 | the bitmap part of that check for one column |
| `PropertyFile.ValidateValues` | chirondb-core/src/graph_edgeprop.rs:841-1059 | the value part, and how the kind moves the cursors |
| `PropertyFile.OpenIsValid` | chirondb-core/src/graph_edgeprop.rs:370-416 | whatever opens satisfies all of it |
| `PropertyFile.FindEdge` | chirondb-core/src/graph_edgeprop.rs:487-500 | binary search finds an edge if and only if the file has it, and refuses invalid ids |
| `PropertyFile.ReadProperties` | chirondb-core/src/graph_edgeprop.rs:502-540 | the column loop with checkpointed ranks computes the naive reading of a row |
| `PropertyFile.WrittenColumnsExact` | chirondb-core/src/graph_edgeprop.rs:841-976 | the sections of a written table pass every column check if and only if its JSON columns parse back |
| `PropertyFile.CellReads` | chirondb-core/src/graph_edgeprop.rs:502-591 | one cell of a written table: absent stays absent, null stays null, a value is the value of that row in canonical form |
| `PropertyFile.PrefixLen` | chirondb-core/src/graph_edgeprop.rs:502-540 | the running length of a partial document is its own length and at most the length of the whole |
| `PropertyFile.DocumentReads` | chirondb-core/src/graph_edgeprop.rs:502-540 | a row reads back as its whole document; the length limit never rejects one the builder admitted |
| `PropertyFile.TableOpensExactly` | chirondb-core/src/graph_edgeprop.rs:227-416 | a written table opens, over the very sections it was written from, if and only if its JSON columns parse back |
| `PropertyFile.PropertyRoundTrip` | chirondb-core/src/graph_edgeprop.rs:136-540 | for every table that can be built and written, the file opens if and only if every value of every document nests at most 127 deep and is unmarked; it then knows exactly the edges given and reads each document back: absent, null, typed and mixed values, objects in key order |
| `PropertyFile.EdgeProperties` | chirondb-core/src/graph_generation.rs:548-564 | looking an edge up and reading its row returns the document of exactly that edge, or none for an edge not in the file |
| `PropertyAcceptance.BuildExact` | chirondb-core/src/graph_edgeprop.rs:136-209 | a table is built if and only if the edge ids are valid and distinct, no key is empty and no document is longer than 65536 bytes |
| `PropertyAcceptance.WriteExact` | chirondb-core/src/graph_edgeprop.rs:227-368 | a sound table is written if and only if its keys can be addressed with 32 bits and the file with 64 |
| `PropertyAcceptance.OpenSections` | chirondb-core/src/graph_edgeprop.rs:370-540 | an opened file has the six sections every file has, and the string and the JSON sections exactly if a column has that kind |
| `PropertyAcceptance.PropertiesStored` | chirondb-core/src/graph_edgeprop.rs:136-540 | documents are built exactly when acceptable, written exactly when they fit, opened exactly when every one parses back, and then answered for |
| `PropertyCodec.LawfulCodec` | chirondb-core/src/graph_edgeprop.rs:1233-1250 | the laws assumed of the JSON text are met by a codec whose parser has both limits |
| `PropertyLimits.OneDocumentExact` | chirondb-core/src/graph_edgeprop.rs:136-416 | a table with one document is always built and written, and its file opens if and only if the value parses back |
| `PropertyLimits.DeepValueBlocksOpen` | chirondb-core/src/graph_edgeprop.rs:1034-1045 | 128 arrays inside each other are built and written, and the file does not open |
| `PropertyLimits.MarkedValueBlocksOpen` | chirondb-core/src/graph_edgeprop.rs:1034-1045 | nor does a file with an object whose only key is the marker of raw values |
| `PropertyLimits.DeepIsAdmitted` | chirondb-core/src/graph_edgeprop.rs:136-209 | the deep document is short enough to be admitted |
| `Publication.StepKeeps` | chirondb-core/src/graph_generation.rs:627-684 | every step of every publisher, every failure, process death and power loss keeps the protocol invariant |
| `Publication.ManifestAlwaysWhole` | chirondb-core/src/fs_util.rs:239-323 | in every state of every run the manifest on disk, and each one a power loss could bring back, is absent or complete, and each was installed over the one before |
| `Publication.InstallAdvances` | chirondb-core/src/graph_generation.rs:627-684 | short of a power loss the visible manifest changes only when the lock holder renames its file, from the very base it named to its candidate, which follows that base: no stale candidate is installed |
| `Publication.HistoryAdvances` | chirondb-core/src/graph_generation.rs:646-684 | along the history generations count up by one, a graph is never dropped, its overlay version rises, epoch and format version never fall, nor the watermark within an epoch: stated about these fields of any two manifests |
| `Publication.InstalledExact` | chirondb-core/src/graph_generation.rs:646-684 | field by field, what may be installed over what: the next generation, valid and allowed, with a graph if there was one, whose overlay rises and whose epoch, format and watermark do not fall back |
| `Publication.UndisturbedExact` | chirondb-core/src/graph_generation.rs:627-643 | a publisher that nothing disturbs returns Ok if and only if its base is the manifest on disk and its candidate may be installed over it; the candidate is then durable and the history one longer |
| `Publication.OkIsInstalled` | chirondb-core/src/graph_generation.rs:627-643 | Ok is returned only with the candidate on disk, installed over its base |
| `Publication.OkSurvivesExact` | chirondb-core/src/graph_generation.rs:627-643 | the candidate then survives every power loss if and only if the directory synchronization succeeded |
| `Publication.OkCanBeLost` | chirondb-core/src/graph_generation.rs:627-643 | a run that returns Ok after a failed directory synchronization and loses the manifest |
| `Publication.ErrExact` | chirondb-core/src/graph_generation.rs:627-643 | an error means the base is still on disk, unless reading the file back failed as well |
| `Publication.ErrCanBeInstalled` | chirondb-core/src/graph_generation.rs:627-643 | a run that returns an error for an installed manifest |
| `Publication.ManifestDirectory.AtomicWrite` | chirondb-core/src/fs_util.rs:239-266 | the file operations leave the old manifest or the complete new one, the new one durable on success, and no temporary file |
| `Publication.ManifestDirectory.PublishPrepared` | chirondb-core/src/graph_generation.rs:627-643 | returns Ok exactly when the base matches, the candidate follows it and the file was replaced and confirmed; otherwise the disk is as it was, unless reading back failed |
| `BuildIdentity.RawCancel` | chirondb-core/src/build_progress.rs:444-495 | self-delimiting: two encoded values followed by anything are equal streams only if values and rest are equal |
| `BuildIdentity.JsonStreamExact` | chirondb-core/src/build_progress.rs:444-475 | the streams of two payloads, whatever follows, agree if and only if the payloads are equal up to field order at any depth and so is what follows |
| `BuildIdentity.NamesExact` | chirondb-core/src/build_progress.rs:420-442 | sorting the named vectors gives one list if and only if the maps are equal |
| `BuildIdentity.PointStreamExact` | chirondb-core/src/build_progress.rs:420-442 | the same for whole points, up to the order of named vectors and payload fields |
| `BuildIdentity.InputStreamExact` | chirondb-core/src/build_progress.rs:60-104 | two point sequences feed the hash one stream if and only if they are equal up to map order |
| `BuildIdentity.LawfulText` | chirondb-core/src/build_progress.rs:444-475 | the law assumed of number printing can be met |
| `BuildIdentity.Hasher.constructor` | chirondb-core/src/build_progress.rs:60-104 | a new hasher was fed nothing |
| `BuildIdentity.Hasher.HashBytes` | chirondb-core/src/build_progress.rs:484-491 | bytes are fed after their length |
| `BuildIdentity.Hasher.HashVector` | chirondb-core/src/build_progress.rs:477-482 | the loop feeds a vector after its length |
| `BuildIdentity.Hasher.HashJson` | chirondb-core/src/build_progress.rs:444-475 | the recursion with sorted keys feeds the canonical stream of the value |
| `BuildIdentity.Hasher.HashItems` | chirondb-core/src/build_progress.rs:444-475 | its array loop |
| `BuildIdentity.Hasher.HashFields` | chirondb-core/src/build_progress.rs:444-475 | its object loop, over the keys in byte order |
| `BuildIdentity.Hasher.HashNamed` | chirondb-core/src/build_progress.rs:420-442 | the loop over the sorted vector names |
| `BuildIdentity.Hasher.HashSparse` | chirondb-core/src/build_progress.rs:420-442 | the optional sparse vector |
| `BuildIdentity.Hasher.HashPoint` | chirondb-core/src/build_progress.rs:420-442 | a point feeds its stream |
| `BuildIdentity.HashInput` | chirondb-core/src/build_progress.rs:60-104 | hashing an input feeds exactly its stream |
| `Estimator.SaturationHarmless` | chirondb-core/src/graph_estimator.rs:650-671 | saturating at 128 bits changes nothing once the result is cut at the collection size |
| `Estimator.GrowMonotone` | chirondb-core/src/graph_estimator.rs:650-671 | a larger branching factor never extrapolates to less |
| `Estimator.Extrapolate` | chirondb-core/src/graph_estimator.rs:650-671 | the saturating loop that stops early computes the exact extrapolation over all hops |
| `Estimator.EstimateBoundedProbe` | chirondb-core/src/graph_estimator.rs:580-648 | in saturating arithmetic the probe is estimated as in exact arithmetic, and an invalid probe is refused |
| `Estimator.EstimateOrdered` | chirondb-core/src/graph_estimator.rs:580-648 | seen, lower bound, estimate, upper bound and collection size are in order for every valid probe |
| `Estimator.ConclusiveExact` | chirondb-core/src/graph_estimator.rs:580-687 | an extrapolated probe is called conclusive if and only if every count of its interval lies in one planner region |
| `EstimatorHops.ProbeExact` | chirondb-core/src/graph_estimator.rs:580-671 | an extrapolated estimate lies midway between two bounds, each what was seen plus one frontier for every hop not made, a frontier being the one before times the branching factor, lowered or raised by the uncertainty, rounded up and capped; any other estimate is exact or the whole range |
| `EstimatorHops.HopsOnce` | chirondb-core/src/graph_estimator.rs:650-671 | these frontiers are determined by the first one and the factor |
| `CalibrationCover.RegionMeans` | chirondb-core/src/graph_estimator.rs:673-687 | the planner regions as ratios: at most 5000 candidates and a twentieth of the collection, below the floor share, at least the least share of the fifth plan |
| `CalibrationCover.ProbeAccepted` | chirondb-core/src/graph_estimator.rs:689-725 | a probe is estimated if and only if the collection is not empty, the policy can be used, the counts are possible within the budget and the boundaries are shares of the whole |
| `Estimator.IntervalEncloses` | chirondb-core/src/graph_estimator.rs:554-567 | the basis-point interval holds the exact ratio of every count between the bounds and stays within 0 and 10000 |
| `Estimator.PairExact` | chirondb-core/src/graph_estimator.rs:796-870 | two valid envelopes fail the pairwise test if and only if some valid query would be ambiguous between them |
| `Estimator.ScanExact` | chirondb-core/src/graph_estimator.rs:796-821 | a store of valid envelopes passes the scan if and only if no query is ambiguous on it |
| `Estimator.ValidateStore` | chirondb-core/src/graph_estimator.rs:796-821 | the version set and the pairwise loops decide exactly this validity |
| `Estimator.Lookup` | chirondb-core/src/graph_estimator.rs:333-354 | on a validated store a valid query is never ambiguous, and the answer is the only matching envelope or none |
| `Estimator.LookupProfile` | chirondb-core/src/graph_estimator.rs:361-380 | on a validated store all matching envelopes share one profile, and the answer has their topology, probe policy, costs, execution controls and both boundaries |
| `Estimator.MatchCovers` | chirondb-core/src/graph_estimator.rs:384-405 | an envelope found for the interval of an estimate covers the exact ratio of every count in it |
| `CalibrationCover.EstimateHasInterval` | chirondb-core/src/graph_estimator.rs:554-571 | every estimate of an accepted probe has a specificity interval |
| `CalibrationCover.EnvelopeAccepted` | chirondb-core/src/graph_estimator.rs:872-998 | an envelope is accepted if and only if its setting, topology, ranges, shares, policy and costs are proper and every search it allows can reach its size |
| `CalibrationCover.MatchExact` | chirondb-core/src/graph_estimator.rs:384-405 | an envelope answers a query if and only if it was calibrated in its setting and topology, its ranges hold hops, lag and size, and every specificity the query may have |
| `CalibrationCover.ProfileMatchExact` | chirondb-core/src/graph_estimator.rs:407-425 | the same for a profile query, which names neither topology nor specificity |
| `CalibrationCover.EnvelopeUsable` | chirondb-core/src/graph_estimator.rs:872-914 | a valid envelope answers some valid query of each kind |

## Left out

- Real file I/O, memory mapping, permissions, symbolic links, Windows branches, metrics, tracing and failpoints.
- The internals of AES-GCM, SHA-256, CRC and base64, and the secrecy of keys.
- Memory charges: only that an operation may be refused before any change.
- Blocked reading: where the loader reads a section in blocks only to bound memory (scalar bytes, offsets, edge ids), the
  check is stated on the whole section; the rank blocks of the bitmaps are modelled.
- The internals of `graph_planner`, query-term analysis, the ranked heap, `fragments::validate_transition` and the
  manifest validation, which enter as parameters or not at all.
- `reload_after_root_swap` in `audit.rs`, and the refresh of archive manifests and cold indexes during key rotation.
- Uniqueness of the grouped-section layout, which the loader does not enforce: it accepts larger aligned offsets.
- The seed hash of `build_progress.rs:73-85`, the cost formulas of `plan_costs`, the calibration file format and the sketch
  router: straight-line formulas and field lists without an invariant of their own.
- Floating-point rounding of scores and distances.
- `graph_fragdir.rs`, `graph_edgeid.rs`, `edge_token.rs`, `graph_resolver.rs`, `graph_lifecycle.rs`, servers, clients and
  language bindings.
- TextIndex.AuthorizedStatistics: the length of a text is its number of tokens, and tokenization itself is not modelled.
- AuditTail.ScanFileOfFrames: a line is blank if it holds ASCII white space only, and a carriage return at its end is
  kept; the code also skips lines of other Unicode white space and strips the carriage return. No frame has either.
- AuditProtocol.AckedSurvive: records are whole frames; bytes inside a frame are the business of `AuditTail`.
- TreeRotation.RerunExact: the digest is a parameter that tells trees of different file counts apart; audit logs and
  paths are modelled at the level of frames.
