# Verified model of the bounded-data core

This Dafny project models the part of the server that validates, merges, counts, stores and
replays untrusted bytes and graphs, and proves what that part is for. `dafny verify
dfyconfig.toml` checks everything.

| files | what they model |
|---|---|
| Common, Json | byte strings, lexicographic order and sorting; JSON values, their printed form, and the budget that counts printed bytes |
| TarFormat, TarValidator, TarRefinement, TarWriter | the tar profile, the incremental archive checker, the proof that it accepts exactly the profile however the bytes are cut, and a writer of the profile |
| GzipHeader, GzipStream, GzipWriter | the gzip member header, the decoding loop over an arbitrary inflater, and streams that it accepts |
| EffectGraph, EffectMerge, EffectAnalysis, EffectSearch | influence graphs, their sorted merge, and reachability with an exact count |
| RecordFormat, RecordStore, StoreRuns | the authenticated append-only record file: layout, operations under injected failures, and all runs with crashes |
| SealTrace, SealPorts, Sealing, SealWorkflow | sealing against arbitrary ports under a cleanup guard |
| ArchiveCheck, CapturePorts, Backup | the program's own ports for a capture, sealing through them, and the round trip from capture to restore |
| ProjectionSpec, ProjectionFields, ProjectionRows, Projection, ProjectionRoot, ProjectionSelection, PrefixFree | typed projections: what a schema means, the evaluator that charges before it builds, selection, and schema validation |
| Dispatcher, DispatcherRuns, DispatcherSafety | concurrent requests as interleaved steps, with permits, audit gate, failure latch and deadlines |
| Capability, Leases | verdicts on observed signatures, and evidence shared by clones and revoked together |
| Command | quoting for a POSIX shell |
| ZipFormat, Zip | preflight of a ZIP key container |
| Packages, PackageSlot | package observations, pages and cursors, and the one kept snapshot |

Conventions. An operation that changes state in the program is a method that is proved against
a function of its inputs or of the old state, and the lemmas are about those functions. Ports,
the clock, entropy and the inflater answer arbitrarily. Failures that the environment may
inject are recorded in `Faults`, so that a contract can say when a refusal must have another
reason. Loops over nested recursion are split into a step, an invariant predicate and a lemma
for each way out of the step.

## Model

| member | source | states |
|---|---|---|
| TarRefinement.ValidateExact | crates/device-codec/src/archive/stream.rs:38-156 | For every manifest and every split into chunks of at most 65536 bytes, feeding all chunks and finishing succeeds if and only if the concatenated bytes are an archive of exactly the manifest: each file once, header, body and zero padding, then a zero tail of 1024 to 32768 bytes in whole blocks; the summary then counts the files, their bytes and the archive bytes |
| TarRefinement.SplitIndependent | crates/device-codec/src/archive/stream.rs:38-111 | Cutting the same bytes differently changes neither success nor the summary |
| TarRefinement.ConformingFits | crates/device-codec/src/archive/stream.rs:51-60 | The 72 MiB limit never rejects a conforming archive |
| TarRefinement.CompletesAccepts | crates/device-codec/src/archive/stream.rs:51-156 | From a header position, what the machine accepts is exactly what a recursive recogniser of members and tail accepts for the files not yet seen |
| TarRefinement.AcceptsConforms | crates/device-codec/src/archive/stream.rs:113-156 | The recogniser agrees with the declarative layout: some order of the files, one entry each, and a valid tail |
| TarRefinement.FailedStaysFailed | crates/device-codec/src/archive/stream.rs:38-49 | After the first error every later chunk repeats that error |
| TarValidator.ConsumeSplit | crates/device-codec/src/archive/stream.rs:51-111 | One pass over a concatenation is two passes in turn, except that a tail error may be seen at a different chunk |
| TarValidator.ArchiveValidator.Feed | crates/device-codec/src/archive/stream.rs:38-49 | Feeding one chunk through the in-place header buffer moves the checker exactly as the specification machine moves, and latches the first error |
| TarValidator.ArchiveValidator.FeedInner | crates/device-codec/src/archive/stream.rs:51-111 | The chunk loop over headers, bodies, padding and tail computes the byte-wise machine |
| TarValidator.ArchiveValidator.AcceptHeader | crates/device-codec/src/archive/stream.rs:113-137 | A full header block selects a manifest entry that is unseen and of the same size, or starts the tail, and leaves the buffer empty |
| TarValidator.ArchiveValidator.Finish | crates/device-codec/src/archive/stream.rs:139-156 | Finishing succeeds only without a latched error, on a whole-block tail of at least 1024 bytes and with every file seen |
| TarFormat.ReadOctal | crates/device-codec/src/archive/header.rs:9-27 | The digit loop with its overflow checks reads exactly the number that the field denotes, or nothing |
| TarFormat.ZeroBlockIsNoHeader | crates/device-codec/src/archive/header.rs:40-103 | A zero block is never a member header, so the start of the tail is unambiguous |
| TarWriter.HeaderRoundTrip | crates/device-codec/src/archive/header.rs:40-103 | Reading a header that was written for a path and a size, with its octal numbers, padding and checksum, gives back that path and size |
| TarWriter.EveryManifestHasAnArchive | crates/device-codec/src/archive/stream.rs:38-156 | For every manifest of names up to 100 bytes there is an archive, and the checker accepts it in whatever chunks it comes, with its exact summary |
| TarFormat.NewManifest | crates/device-codec/src/archive/manifest.rs:57-93 | A manifest is accepted if and only if it is within the file count and payload limits, names are distinct and no file is an ancestor directory of another; it keeps exactly the given files, sorted |
| TarFormat.CheckAncestors | crates/device-codec/src/archive/manifest.rs:76-88 | The search at every separator finds an ancestor if and only if some file lies below another |
| TarFormat.FindPath | crates/device-codec/src/archive/manifest.rs:81-83 | Binary search in the sorted manifest finds exactly what a search from the front finds |
| TarFormat.NeighboursMissAncestor | crates/device-codec/src/archive/manifest.rs:74-75 | Comparing sorted neighbours alone misses ancestors: below every name there are names that hide it from what lies inside it |
| GzipHeader.ChunksAgree | crates/device-codec/src/gzip/header.rs:38-128 | For every chunking the byte machine completes after exactly the bytes of the header, waits for more, or fails with the same first error as a whole-string parser of the optional fields and their limits |
| GzipHeader.DrinkSplit | crates/device-codec/src/gzip/header.rs:38-110 | Feeding two pieces in turn is feeding their concatenation, up to and including the first error |
| GzipHeader.FieldsAgree | crates/device-codec/src/gzip/header.rs:112-128 | Each flag is dealt with once and in order: the machine after a field stands where the parser of the remaining fields starts |
| GzipHeader.Header.Feed | crates/device-codec/src/gzip/header.rs:38-110 | The loop over the in-place buffer is the byte machine: it consumes up to the end of the header, keeps what it consumed, and stops at the first error |
| GzipHeader.Header.Take | crates/device-codec/src/gzip/header.rs:47-106 | One byte moves the header object exactly as it moves the machine |
| GzipStream.GzipArchiveValidator.Decode | crates/device-codec/src/gzip/stream.rs:83-138 | Against an inflater that may report anything, the decoding loop terminates, and its result is decided by the reports: all but the last call for another round, and the last one is accepted or refused for counters that do not fit, an output that the archive checker refuses, bytes after the end, a wrong total or no progress; on success the checker has seen exactly the outputs |
| GzipStream.GzipArchiveValidator.Feed | crates/device-codec/src/gzip/stream.rs:36-81 | A successful feed has consumed all its bytes; limits, then the header, then the reports of the inflater decide success and error of every feed; the first error is latched |
| GzipWriter.AcceptArchive | crates/device-codec/src/gzip/stream.rs:36-167 | Every conforming archive of up to one MiB comes out of some stream that is accepted, with its exact summary |
| GzipWriter.ScriptDecides | crates/device-codec/src/gzip/stream.rs:83-138 | Reports that put out an archive in full buffers and end with it decide a feed of the whole stream: it succeeds after exactly these reports |
| GzipStream.GzipArchiveValidator.Finish | crates/device-codec/src/gzip/stream.rs:140-167 | Finishing succeeds if and only if the stream is complete, the outputs are a conforming archive and the expansion is within 128 times the deflate bytes plus one MiB |
| GzipStream.GzipArchiveValidator.FinishedStream | crates/device-codec/src/gzip/stream.rs:51-167 | On success the source is exactly one header, the deflate data and an eight-byte trailer, and the concatenated output is a conforming archive of bounded expansion |
| GzipStream.HeaderStays | crates/device-codec/src/gzip/stream.rs:66-76 | Bytes after a complete header do not change what the header was |
| EffectSearch.AnalyzeEffects | crates/core/src/management/analysis.rs:106-162 | The analysis returns ProtectedImpact if and only if a protected resource is reachable from the roots over the union of both graphs, otherwise IncompleteEffects if and only if a reachable resource is unknown in either graph, otherwise the exact number of reachable resources; unknown roots and exceeded limits are errors first |
| EffectSearch.Search | crates/core/src/management/analysis.rs:140-152 | The explicit-stack loop visits every reachable node exactly once and counts it, recording protected and unknown nodes |
| EffectSearch.MarkRoots | crates/core/src/management/analysis.rs:119-125 | Roots are marked and pushed if and only if each of them is a node; distinct roots are pushed once |
| EffectAnalysis.SearchFinds | crates/core/src/management/analysis.rs:130-161 | A closed visited set that contains only reachable nodes names exactly the reachable resources, and its size is their number |
| EffectAnalysis.BuildAdjacency | crates/core/src/management/analysis.rs:130-139 | The offsets slice out exactly the successors of each node from the sorted edges |
| EffectAnalysis.SwapInvariant | crates/core/src/management/analysis.rs:106-162 | Swapping the graphs before and after changes nothing |
| EffectAnalysis.MoreLinksKeepImpact | crates/core/src/management/analysis.rs:106-162 | Adding edges never turns a protected impact into anything but a protected impact or a limit error |
| EffectAnalysis.OkIsAntitone | crates/core/src/management/analysis.rs:140-162 | If the verdict over more links is fine, so is the verdict over fewer, with no larger count |
| EffectMerge.CombinedGraph | crates/core/src/management/analysis.rs:23-99 | The merge fails if and only if the union of nodes or of edges exceeds its limit; otherwise nodes and edges are strictly sorted and are exactly the unions, and a node is unknown if it is unknown in either graph |
| EffectMerge.MergeNodes | crates/core/src/management/analysis.rs:27-67 | The two-stream merge yields the sorted union of nodes and index maps that send each old index to its resource |
| EffectMerge.MergeEdges | crates/core/src/management/analysis.rs:68-98 | The two-stream merge of translated edges yields their sorted union, or fails exactly when it is too large |
| EffectMerge.TranslationIncreases | crates/core/src/management/analysis.rs:68-80 | The index maps are strictly increasing |
| EffectMerge.TranslateSorted | crates/core/src/management/analysis.rs:68-80 | Translating a strictly sorted edge list keeps it strictly sorted |
| EffectMerge.TranslateLinks | crates/core/src/management/analysis.rs:68-80 | Translated edges link the same resources as before |
| EffectGraph.NewGraph | crates/core/src/management/graph.rs:9-46 | A graph is accepted if and only if it is within limits, resources are distinct, influences are distinct and every end is a node; it is stored sorted, with the same resources and links |
| EffectGraph.SelectionCorrect | crates/core/src/management/model.rs:77-90 | A selection is accepted if and only if it is non-empty, within its maximum and free of repetitions; it keeps the same resources, sorted |
| StoreRuns.RunsStayShaped | crates/adapters/src/backups/store.rs:83-277 | In every run of opening, publishing, reconciling, reading and crashing, with appends stopping at any byte, the file is a well-formed store followed by a proper prefix of at most one record, and a handle without doubt implies a well-formed store |
| StoreRuns.StepKeepsInv | crates/adapters/src/backups/store.rs:191-268 | Each single event keeps that shape |
| StoreRuns.DurableForever | crates/adapters/src/backups/store.rs:191-277 | The ciphertext of a durable publication is what every later successful read in the run returns, byte for byte |
| StoreRuns.DurableRun | crates/adapters/src/backups/store.rs:191-277 | A durable record stays a record of the synchronized part of the file in every later state |
| StoreRuns.DurableIsRead | crates/adapters/src/backups/store.rs:112-190 | A durable record is found by every scan of a well-formed file |
| StoreRuns.JobsPublishOnce | crates/adapters/src/backups/store.rs:191-250 | Two durable publications of one run are for different jobs |
| StoreRuns.ReconciledIsDurable | crates/adapters/src/backups/store.rs:251-268 | A record reconciled as durable is durable from then on |
| StoreRuns.TornIsNotWellFormed | crates/adapters/src/backups/store.rs:112-190 | A torn record is never read as a well-formed store |
| StoreRuns.CutKeepsShape | crates/adapters/src/backups/store.rs:191-250 | Cutting the file anywhere above its synchronized part leaves a store and at most one torn record |
| StoreRuns.Provisioned | crates/adapters/src/backups/store.rs:45-59 | A provisioned header is a well-formed empty store |
| RecordStore.RecordStore.Scan | crates/adapters/src/backups/store.rs:112-190 | A scan succeeds exactly on well-formed files whose records agree with the expected binding, up to I/O failures, and reports their size, count and matching ciphertext |
| RecordStore.RecordStore.Publish | crates/adapters/src/backups/store.rs:191-250 | Publishing appends exactly one whole record and synchronizes it, or leaves the file unchanged, or leaves a prefix of the record and the doubt latch set |
| RecordStore.RecordStore.Reconcile | crates/adapters/src/backups/store.rs:251-268 | Reconciling clears the doubt only after a successful scan and tells whether the record is there |
| RecordStore.RecordStore.AuthenticatedBytes | crates/adapters/src/backups/store.rs:269-277 | Returns exactly the ciphertext that a full successful scan finds for the binding, whether or not the store is in doubt |
| RecordStore.RecordStore.FromIo | crates/adapters/src/backups/store.rs:83-97 | Opening without doubt means that the file is well formed |
| RecordStore.CiphertextFile.Append | crates/host-platform/src/ciphertext/mod.rs:80-107 | An append extends the file by the whole chunk, or by some prefix with the failure latch set |
| RecordStore.CiphertextFile.Synchronize | crates/host-platform/src/ciphertext/mod.rs:108-116 | After a successful synchronization all bytes are stable; afterwards nothing is lost |
| RecordFormat.FullStoreFits | crates/adapters/src/backups/store.rs:112-190 | A store of the maximum number of records of the maximum size stays within the store limit |
| RecordFormat.ImageInjective | crates/adapters/src/backups/store.rs:112-190 | Different record lists are different files |
| RecordFormat.HeadComplete | crates/adapters/src/backups/store.rs:140-180 | A whole record at the head of the bytes is read as that record, whatever follows |
| RecordFormat.TornHead | crates/adapters/src/backups/store.rs:140-180 | A proper prefix of a record is not read as a record |
| RecordFormat.BindingRoundTrip | crates/runtime/src/backups/mod.rs:48-103 | An accepted binding decodes to itself and gives back every field: the four identities, both lengths and the format |
| RecordFormat.DecodeExact | crates/runtime/src/backups/mod.rs:77-103 | What decodes is a valid binding with its own bytes, four non-zero identities and bounded sizes |
| RecordFormat.RecordTagIsMade | crates/crypto-age/src/provenance/mod.rs:22-47 | The limits on framed parts never stand in the way of the tag of a record, and verification succeeds exactly on its tag |
| RecordFormat.FrameInjective | crates/crypto-age/src/provenance/mod.rs:22-37 | The authenticated message determines its purpose and all of its parts |
| RecordFormat.FromBigEndianRoundTrip | crates/runtime/src/backups/mod.rs:48-76 | Big-endian numbers read and write back |
| SealWorkflow.TraceSafety | crates/runtime/src/sealing/workflow.rs:54-196 | In the whole trace publication happens at most once and only when read, checked, encrypted, completed and flushed counts all agree; cancel and abort happen at most once each, cancel never after confirmed completion, abort never after a published or unknown outcome |
| SealWorkflow.ArchiveSealer.Seal | crates/runtime/src/sealing/workflow.rs:29-52 | Against ports that answer anything or panic, the body is safe, cleanup follows it exactly once, success means that publication was answered Published, and a refusal reports the first latched error or follows an answer that contradicts the run |
| SealWorkflow.ArchiveSealer.Run | crates/runtime/src/sealing/workflow.rs:54-137 | Each stage of the run keeps the body safe and the guard flags equal to what the trace shows |
| SealWorkflow.Guard.DoCleanup | crates/runtime/src/sealing/workflow.rs:148-196 | Cleanup cancels unless completion was confirmed and aborts unless publication was or may have been done, once |
| SealWorkflow.PublishedMeansConfirmed | crates/runtime/src/sealing/workflow.rs:96-137 | A published body is one whose source completion was confirmed |
| Sealing.CheckedRead.Read | crates/runtime/src/sealing/stream.rs:18-76 | What a read gives to the cipher is exactly the next piece handed over, no longer than its buffer, and was read from the source and accepted by the checker first, up to the limit and its probe |
| Sealing.CountedWrite.Write | crates/runtime/src/sealing/stream.rs:85-121 | A write reports how many of its first bytes the stage took, and the count grows by exactly that |
| Sealing.Encrypt | crates/runtime/src/sealing/cipher.rs:5-17 | Whatever an encryptor does with its two streams, reads, checks and writes stay in step; it received exactly the pieces handed over, and without an error what its writes were told is taken is what was staged |
| SealPorts.Budget.Check | crates/runtime/src/sealing/budget.rs:30-44 | The budget fails on a passed deadline or a reversed clock, and its first error stays |
| Backup.SealCapture | crates/adapters/src/backups/workflow.rs:107-160 | Whatever the cipher does, the record store makes exactly the reported step; a sealed capture has the bound inspection, and if the cipher is honest its published record decrypts to exactly the captured bytes and passes the check |
| Backup.SealThenRestore | crates/adapters/src/backups/workflow.rs:162-200 | A record published in a run and opening to an inspection is restorable with that inspection in every later state of the run in which the file is a complete store, in doubt or not |
| Backup.RoundTrip | crates/adapters/src/backups/workflow.rs:107-200 | Sealing a capture, then any number of publications, reconciliations and crashes with reopening, then restoring: with an honest cipher the inspection is the sealed one, and only a failure or a torn file can prevent it, although the two sides cut the archive into different chunks |
| Backup.SealedOpens | crates/adapters/src/backups/workflow.rs:107-160 | What a sealed trace staged opens to the captured bytes, all of which were read, checked and handed to the cipher |
| Backup.ReportedMoves | crates/adapters/src/backups/workflow.rs:76-105 | The publication that the guard reports is the step that the record store made |
| Backup.HonestyIsPossible | crates/adapters/src/backups/workflow.rs:107-160 | Every sealed run has a decryptor for which its cipher is honest |
| Backup.CompletedExactly | crates/runtime/src/backups/mod.rs:138-150 | A capture exists if and only if the bytes that arrived and the bytes that the producer counted are as many as were bound |
| CapturePorts.Source.Read | crates/adapters/src/backups/workflow.rs:29-34 | A source read returns the next bytes of the capture, as many as fit |
| CapturePorts.Stage.Publish | crates/adapters/src/backups/workflow.rs:84-100 | The stage publishes exactly its memory under its binding, and refuses counts other than the bound ones |
| CapturePorts.Stage.Write | crates/adapters/src/backups/workflow.rs:68-75 | A staged write is taken whole or not at all |
| ArchiveCheck.VerdictSplit | crates/adapters/src/backups/archive.rs:15-66 | The archive verdict on the same bytes does not depend on the chunks |
| Backup.RestoreInspect | crates/adapters/src/backups/workflow.rs:162-200 | Restoring succeeds exactly on a stored record that decrypts to an archive its binding describes, up to I/O and deadline failures |
| Backup.CheckArchive | crates/adapters/src/backups/archive.rs:15-66 | The chunked check of a plaintext gives the verdict on it |
| CapturePorts.Memory.Write | crates/adapters/src/backups/workflow.rs:45-62 | The staging memory takes a chunk whole or not at all, and never exceeds its maximum |
| ArchiveCheck.ExpectedIsManifest | crates/adapters/src/backups/archive.rs:20-32 | The one-file manifest made from a binding is valid and totals the file bytes of the binding |
| ArchiveCheck.Check.Feed | crates/adapters/src/backups/archive.rs:33-40 | Feeding the check feeds its validator, and fails only with the deadline or once the validator failed |
| ArchiveCheck.Check.Finish | crates/adapters/src/backups/archive.rs:41-66 | Finishing reports the verdict on everything that was fed |
| ArchiveCheck.FailedVerdict | crates/adapters/src/backups/archive.rs:33-66 | Once the validator failed, no further piece leads to a verdict |
| Json.CheckNormalizedResult | crates/core/src/projection/budget.rs:99-123 | Accepts if and only if the compact serialization is at most 65536 bytes and the depth at most 32; the node limit never decides |
| Json.Nodes | crates/core/src/projection/budget.rs:51-57 | A value has no more nodes than its serialization has bytes, so the byte limit implies the node limit |
| Json.Visit | crates/core/src/projection/budget.rs:100-121 | The recursive count is the printed length and the node count, and stops exactly when one of them or the depth is exceeded |
| Json.Budget.Text | crates/core/src/projection/budget.rs:59-79 | Text is charged by its exact printed length without printing it |
| ProjectionRoot.Project | crates/core/src/projection/evaluate.rs:459-498 | A projection succeeds if and only if the schema gives the source a meaning whose serialization is within 65536 bytes and whose inputs are within 256; the result is that meaning and the bytes charged are exactly its printed length |
| Projection.ProjectAt | crates/core/src/projection/evaluate.rs:251-417 | A collection, listed or selected, is produced and charged exactly as its budget-free meaning prints, or refused with its own error or an overdrawn budget |
| Projection.ProjectRows | crates/core/src/projection/evaluate.rs:270-406 | The loop over the inputs gathers every row in order, or the one selected row, and a refusal on the way is a refusal of the whole |
| Projection.RecordRow | crates/core/src/projection/evaluate.rs:290-375 | A row is identified, checked for repetition and emitted only when it is chosen |
| Projection.ScalarRow | crates/core/src/projection/evaluate.rs:376-404 | A scalar row is charged as the one-member object it becomes, and unique rows do not repeat |
| Projection.ProjectTextOption | crates/core/src/projection/evaluate.rs:421-457 | A text option prints its kind and its values, and is charged for exactly that |
| Projection.ProjectRecord | crates/core/src/projection/evaluate.rs:225-248 | A record is its scalar members followed by its nested collections, charged exactly |
| ProjectionFields.RecordFields | crates/core/src/projection/evaluate.rs:121-160 | The scalar members are read, validated, charged and added in order |
| ProjectionFields.AddFields | crates/core/src/projection/evaluate.rs:144-158 | The loop over scalar fields means the fields it has passed |
| ProjectionSelection.SelectAgreesWithList | crates/core/src/projection/evaluate.rs:251-417 | If the listing of a source succeeds, its rows show distinct identities and selecting an identity succeeds with the one row that shows it, or says that none was observed |
| ProjectionSelection.PickingChecksEveryRow | crates/core/src/projection/evaluate.rs:251-417 | Selecting a row succeeds only on a source all of whose rows are valid, with one of the listed rows |
| ProjectionSelection.RowShowsMark | crates/core/src/projection/evaluate.rs:288-330 | The identity by which a row is told apart is the identity it shows |
| ProjectionSelection.MembersAreDistinct | crates/core/src/projection/evaluate.rs:225-248 | The members of a projected record have distinct keys |
| ProjectionRows.MarksAreDistinct | crates/core/src/projection/evaluate.rs:292-330 | Rows of a selectable collection have pairwise different identities |
| ProjectionRoot.RejectGuards | crates/core/src/projection/evaluate.rs:464-468 | A guard that is present, or malformed, rejects the source |
| PrefixFree.ValidateFields | crates/core/src/projection.rs:258-298 | A record is accepted if and only if its names, kinds and pointers are well formed, its names differ, and none of the places it reads contains another |
| PrefixFree.ValidatedNamesDiffer | crates/core/src/projection.rs:258-298 | A validated record names its members differently |
| PrefixFree.DisjointOutputFields | crates/core/src/operation.rs:164-184 | Accepts if and only if there are at most 64 valid pointers and no decoded pointer is a prefix of another |
| PrefixFree.PrefixFreePaths | crates/core/src/operation.rs:180-183 | Sorting and testing neighbours decides whether any two paths are in prefix relation |
| PrefixFree.NeighboursSuffice | crates/core/src/operation.rs:181-183 | In sorted order some path is a prefix of another if and only if one is a prefix of its right neighbour |
| PrefixFree.FlatOrder | crates/core/src/operation.rs:180 | The order used is the order of lists of byte strings, segment by segment |
| DispatcherSafety.ExecutionIsBracketed | crates/runtime/src/dispatcher.rs:97-189 | In every interleaving, every execution follows the same request's authorization, admission, recorded start and compatible verdict, in that order |
| DispatcherSafety.CallsFollowRecordedStart | crates/runtime/src/dispatcher.rs:319-345 | No call of any kind reaches the backend before its request's start is recorded |
| DispatcherSafety.OkRepliesAreRecorded | crates/runtime/src/dispatcher.rs:347-373 | An Ok reply follows the recorded start, for an invocation the compatible verdict and the execution, and the recorded success |
| DispatcherSafety.OkRepliesAreInTime | crates/runtime/src/dispatcher.rs:97-189 | An Ok reply carries a result that the request produced before its deadline |
| DispatcherSafety.AdmissionIsBounded | crates/runtime/src/dispatcher.rs:319-345 | In every reachable state at most max_concurrent requests hold a permit and at most one more wait for the audit gate |
| DispatcherSafety.LatchSeals | crates/runtime/src/dispatcher.rs:389-436 | Once set, the audit latch stays set, and at most the record that holds the gate at that moment can still succeed |
| DispatcherSafety.LatchStopsLateRequests | crates/runtime/src/dispatcher.rs:389-436 | After the latch a request whose start is neither recorded nor being written never calls the backend; in particular no later request |
| DispatcherRuns.RunKeeps | crates/runtime/src/dispatcher.rs:97-436 | Every state of every run balances the semaphores, keeps every request's story inside the bracket automaton and every request where its story says it is |
| DispatcherRuns.StepKeeps | crates/runtime/src/dispatcher.rs:97-436 | Each step of a request, of the gate's worker or of the clock keeps that |
| DispatcherSafety.AnInvocationCanSucceed | crates/runtime/src/dispatcher.rs:97-189 | The guarantees are not empty: with one permit and some time there is a run in which an invocation is recorded, executed and answered with Ok |
| Leases.CapabilityCache.Observe | crates/runtime/src/capability.rs:104-160 | Whatever the backend, the clock and other requests do, for each object at most one piece of evidence is valid and it is the cached one; served evidence is fresh and about the right object, and dated from before its probe; fresh cached evidence is served without a probe; a refresh, a failed or a cancelled probe leaves no earlier clone valid |
| Leases.CapabilityCache.Retain | crates/runtime/src/capability.rs:115-121 | Exactly the fresh entries stay, and all clones of the others are revoked |
| Leases.CapabilityCache.ProbeAgain | crates/runtime/src/capability.rs:130-159 | A probe fails if and only if the backend failed; its answer is cached as evidence if and only if the connection and the time did not move on, with what the probe said and the epoch it was obtained under |
| Leases.AdmittedIsAbout | crates/runtime/src/capability.rs:144-151 | What is kept of an answer is a valid observation of the probed object, unchanged, or unknown |
| Leases.CapabilityCache.Revoke | crates/runtime/src/capability.rs:57-59 | Revoking one clone revokes all and keeps the cache consistent |
| Leases.CompatibleVerdict | crates/runtime/src/capability.rs:50-71 | A compatible verdict implies the current epoch, no revocation, an age under 30 seconds and a matching type for every transmitted argument |
| Capability.EvaluateArguments | crates/core/src/capability.rs:364-391 | The loop weighs a type conflict first, then a missing argument, then an unrecognized type, and is compatible exactly otherwise |
| Capability.Evaluate | crates/core/src/capability.rs:309-392 | The verdict on an observation for a prepared call or in general |
| Capability.CompatibleCall | crates/core/src/capability.rs:309-392 | A call is compatible if and only if it is the reviewed call with declared values, the observation is valid and lists the method, and every transmitted argument has the declared type |
| Capability.IncompatibleCall | crates/core/src/capability.rs:309-392 | A call is incompatible if and only if it is not the reviewed call with declared values, or a valid observation gives a transmitted argument a known type other than the declared one |
| Capability.GeneralVerdictCovers | crates/core/src/capability.rs:309-392 | What is compatible in general is compatible for every call, and a call that conflicts conflicts in general |
| Command.ShellReadsBack | crates/device-codec/src/command.rs:45-56 | A POSIX shell reads an encoded command as exec, the program and the exact arguments, whatever bytes they contain |
| Command.CommandBuffer.Argument | crates/device-codec/src/command.rs:45-56 | Appending an argument piece by piece appends its quoted form, or fails exactly when it does not fit |
| Command.EncodedSize | crates/device-codec/src/command.rs:148-158 | The size fold is the length of the encoding |
| Command.CompileAction | crates/device-codec/src/command.rs:106-163 | Compiles exactly the valid actions whose encoding fits |
| Command.EncodeRemote | crates/device-codec/src/command.rs:175-182 | Encodes, or fails exactly when the encoding does not fit |
| Command.CompileAndEncode | crates/device-codec/src/command.rs:106-182 | Encoding a compiled action never fails and reads back as its words |
| Zip.Preflight | crates/key-sources/src/archive.rs:93-210 | Accepts exactly the containers whose last end record has a quiet comment and whose directory is tiled by readable entries with different names, disjoint local regions below it and the requested entry within its limits; the index returned is that entry |
| Zip.ReadEntries | crates/key-sources/src/archive.rs:134-210 | The loop reads the chain of entries and rejects exactly when no good chain exists |
| Zip.ContainerIsUnambiguous | crates/key-sources/src/archive.rs:93-210 | In an accepted container no two entries share bytes, in the directory or locally, and exactly one bears the requested name |
| Zip.RegionsApart | crates/key-sources/src/archive.rs:205-208 | Sorting regions and comparing neighbours decides whether all are pairwise disjoint |
| Zip.ValidateLocal | crates/key-sources/src/archive.rs:241-302 | The local header agrees with the directory and its region, widened by a data descriptor, ends before the directory |
| Zip.ValidateExtra | crates/key-sources/src/archive.rs:212-230 | Extra fields tile their space and none is ambiguous |
| Zip.CheckEntry | crates/key-sources/src/archive.rs:134-200 | One central entry with its local region is read, or rejected |
| ZipFormat.FindEnd | crates/key-sources/src/archive.rs:97-104 | The search from the back finds the last end record whose comment runs to the end |
| Packages.NewObservation | crates/core/src/packages.rs:51-114 | Accepts exactly the complete observations: valid records within both limits, no two with the same place in the order; and keeps the same records, strictly sorted |
| Packages.ParseCursor | crates/core/src/packages.rs:170-200 | Reads exactly the encodings of valid cursors, and gives back what was encoded |
| Packages.EncodeInjective | crates/core/src/packages.rs:170-212 | Different valid cursors are encoded differently |
| Packages.EncodingReads | crates/core/src/packages.rs:209-212 | An encoded cursor has the one form that the parser accepts |
| Packages.Page | crates/core/src/packages.rs:123-160 | A page is produced exactly at page starts under a non-zero nonce |
| Packages.PageFits | crates/core/src/packages.rs:132-158 | No page of a validated observation can hit the 64 KiB ceiling |
| Packages.CursorLeadsOn | crates/core/src/packages.rs:152-157 | The cursor printed on a page names the start of the next page |
| Packages.PageShows | crates/core/src/packages.rs:123-160 | A page shows its records in order and, unless it is the last one, the cursor of the next |
| Packages.FollowCursors | crates/core/src/packages.rs:123-200 | A client that parses the cursor off every page and asks for the page it names sees every record once, in order, on as many pages as the records fill, and is done |
| PackageSlot.Slot.Serve | crates/runtime/src/packages.rs:39-136 | A cursor is honoured only for the live snapshot with its nonce, operation, profile and epoch within 120 seconds; a failed, late or unaudited request leaves no snapshot; one request at a time |
| PackageSlot.Slot.PageFor | crates/runtime/src/packages.rs:65-136 | A continuation serves the page that its cursor names in the kept, live snapshot and changes nothing, and is refused only if there is no such page; otherwise a new capture replaces the snapshot |
| PackageSlot.Slot.Preserve | crates/runtime/src/packages.rs:47-54 | The snapshot is kept exactly if it is still live |
| PackageSlot.PagesAreOfOneCapture | crates/runtime/src/packages.rs:39-136 | Given distinct nonces, all pages ever served under one nonce are pages of one capture |
| PackageSlot.OldCursorsAreDead | crates/runtime/src/packages.rs:74-136 | Given distinct nonces, once a newer capture was made no later request of the session that sends a cursor of an older one is answered |
| Common.SortByCorrect | crates/core/src/management/graph.rs:14-20 | The sorting used by the specifications is a permutation in order |

## Left out

- Operating system, network and processes: SSH, sockets, files behind handles, permission checks, log rotation and the MCP protocol are not modelled; the record file is a byte string whose appends may stop anywhere and whose unsynchronized end may be lost.
- Cryptography and compression: encryption is any function with a partial inverse, the message authentication code is an uninterpreted function of the framed message, and the inflater reports anything that its checked counters allow.
- Zeroization: buffers are overwritten in the model where the code does so in a loop, but memory scrubbing is not a property here.
- Machine integers: lengths and counts are unbounded, and every `checked_add` that cannot overflow below the limits is an ordinary sum; the limits themselves are kept.
- Sorting and searching in the standard library: an insertion sort with the same order stands for `sort` and `sort_by`. The binary searches of the manifest are loops; in the influence graphs an index lookup stands for the binary search.
- Error codes: where several errors are possible before anything is decided, contracts say when an operation succeeds and which errors are final, not which of two simultaneous errors is reported first. In particular Zip.Preflight and Packages.NewObservation promise exact acceptance and no order of errors, and the codes of the record store are merged into the few that callers distinguish.
- Projection.ProjectAt: for an invalid source the contract does not say how much was charged before the invalid part was met, so it allows the limit error as well as the source's own; exactness is proved for success, for the charge, and for refusals of valid sources.
- ProjectionSelection.MembersAreDistinct: objects keep their members in the order of insertion, while the program's map sorts them by key; the printed length is the same, the order of printed members is not modelled.
- Schema levels: the three record types of the schema are one recursive type; the limits on schema depth and on the number of collections, and the parameter checks of a projection, are not modelled beyond the fields of one record.
- Numbers: a JSON number that is not an integer is kept as the text it prints as.
- The legacy projections with redaction (crates/core/src/projection/legacy.rs) and the parsing of operation catalogs and policies would only add simpler instances of the same budget.
- Backup.RestoreInspect: for a gzip artifact the check is a function of the compressed bytes that answers when it is finished; the stream checker itself is modelled separately in GzipStream over an arbitrary inflater. The decryptor reads its whole input.
- Backup.SealCapture: the cipher is arbitrary, and what it must do for the round trip is the one hypothesis HonestCipher; deadline and I/O failures of the ports are those of `Faults`, and the clock of the sealing budget is arbitrary.
- DispatcherRuns.RunKeeps: the sequence counter does not wrap, the gate's queue is not first-in first-out, a failed or panicking write is taken not to have recorded its event, and a metadata answer that needs no probe is subject to the same deadline as one that does.
- Leases.CapabilityCache.Observe: the cache lock is held for the whole call, so observations are atomic with respect to each other; revocations by other requests happen at the probe.
- Command.ShellReadsBack: the shell is modelled as far as words without expansions, operators, comments and aliases; a byte that would start any of those outside quotes gives no words at all.
- PackageSlot.Slot.Serve: cancellation while capturing is a failed capture; a cancelled continuation is a dropped lease.
- Distinct nonces are a hypothesis of the two lemmas about pages and cursors of different captures, as entropy is a port.
