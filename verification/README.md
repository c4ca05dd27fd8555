# A verified model of the LINAL engine core

LINAL is an in-memory analytical engine, written in Rust, over named tensors and datasets. This Dafny project
models the parts of it whose correctness is hardest to see from any one function, and proves properties of
that model. It verifies with `dafny verify dfyconfig.toml`; it is a set of proofs about a model, it does not
execute the Rust program.

What the model promises, area by area:

- **Provenance log** (`Provenance`, `ProvenanceRecording`). An append-only log whose ancestry trees are resolved
  by content hash with a name tiebreak. Pruning rewrites the log and renumbers every record. Over any run of appends,
  liveness changes and prunes in which what is consumed or newly exists was live, was output, has no producer (a
  literal) or shares the producer of a live entity (an alias), each live entity resolves to the very tree it
  would have had if nothing had ever been pruned. For any other entity and run the exact condition is proved, where
  records can be told apart.
- **Durability** (`WalCodec`, `WriteAheadLog`, `Recovery`, `RecoveryLimits`, `TensorDb`). The log is bytes,
  and a write can stop after any of them; a checkpoint can stop at any step of its directory swap, by failing
  or by dying. The recovered state is the state after a prefix of the successful statements that contains every
  acknowledged one, over every run that avoids five things: dying over a log that cannot be read, stopping a checkpoint
  between its installation and the truncation over a failed but complete record, appending to an unfinished line,
  acknowledging an append on a log that could not be opened again, and swapping from `checkpoint.old/` alone. For these
  the exact condition is proved under which the database still comes back as promised.
- **Spectral matching** (`PeakSweep`, `CosineGreedy`, `CosineSelf`, `CauchySchwarz`, `StableSort`, `EntropySweep`,
  `Logarithms`, `EntropyScore`, `Centroid`, `CentroidWindows`, `Cleaning`). The sorted sweep equals the all-pairs search;
  greedy is at least half of optimal, scores at most 1, and scores identical spectra 1; the two-pointer sweep is a
  maximum matching, symmetric, and exact on centroided spectra; the weighted intensities are known up to scale; centroiding
  terminates, conserves intensity and moment, and is the only list that merging the most intense peak with all within
  the distance can give; cleaning keeps exactly the peaks it should, with power 1 it is idempotent, and for every other
  power it is known exactly when it is.
- **Strided tensors** (`Tensors`, `Views`, `Matmul`, `Elementwise`). Every traversal of every kernel produces
  the logical values given by the index formula; views built by any chain of transposes and slices stay in bounds
  and read their source as specified; kernels depend on shapes and logical values only. Reshaping does not, and it is
  proved exactly when it keeps the values.
- **Lazy tensors** (`LazyEvaluation`, `LazyDatabase`). It is proved for each step exactly when it can tell whether a
  lazy name has been evaluated. Definitions, aliases and insertions never can; an eager operation or a plain read can,
  through an operand that is evaluated in the one case alone, and a removal through a tensor it takes from another name.
  Over all other runs the time of evaluation cannot be seen, and every run that succeeds with no evaluation is among
  them if it removes nothing.
- **Derived state** (`Values`, `ZoneMaps`, `Partitions`, `SortReuse`, `SortOrder`, `Datasets`, `Pruning`). Statistics and
  zone maps kept row by row equal a rebuild, sorting sorts and is stable, and skipping the partitions that the zone maps
  rule out never changes a query's answer.
- **Storage forms** (`Words`, `BitVectors`, `Tanimoto`, `Quantization`, `ColumnFiles`, `ColumnLayout`, `ColumnOffsets`,
  `ColumnBits`). Packed words refine boolean vectors, quantization is stable within half a step, and column files round-trip and refuse
  any truncation or extension. In 64-bit arithmetic the files accepted with given sizes are all read inside their bounds
  exactly when these sizes do not wrap, and for each single file the exact condition is proved.

## How the model is built

Code that computes by expressions and recursion is functions and lemmas. Code that changes state step by step is
methods with loops, arrays and classes (`Wal`, `TensorDb`, `ProvenanceStore`, `DatabaseInstance`, `BitVec`,
`Dataset`), each proved against a function that says what it computes; the lemmas are then about that function.
`f32` and `f64` are `real`; machine words are naturals below 2^64 and bytes naturals below 256. `ColumnFiles.Open` and
`ColumnOffsets` compute sizes modulo 2^64, as a release build does.

Opaque parameters stand for what the proofs must not depend on: the weight of a peak (a power of m/z times a power
of intensity), the square root, the logarithms, the powers a spectrum is weighted with, the power step of cleaning, the
digest of a column file, the kernels under lazy evaluation, and the engine that executes statements. What the proofs use of
them is named as predicates: a square root is one; a logarithm turns products into sums and lies below a tangent at 1
(`Logarithms`), and from that alone follow the bounds of the gain of a pair and of the entropy; powers of positive
numbers are positive; a digest has 32 bytes.

The engine is a deterministic step function, `Engine.step`, that gives the next state or fails. That a failed statement
leaves the state as it was, and is not logged, is an assumption of this form; whether each statement of the
language meets it is not part of this model.

Crashes are deaths of the process: what a completed write call handed to the operating system stays, and a write that
was interrupted leaves any prefix of its bytes.

## Where the code and its documentation part

The model follows the code. In each case below the lemmas named say exactly when the documented behaviour holds, and most
give a concrete input on which it fails.

- The log's module comment says that a crash loses at most the one statement in flight
  (src/engine/wal.rs:19-22), and the comment on `rewrite` that the next append starts on a clean line
  (src/engine/wal.rs:109-112). A cut exactly before the final newline reads as a complete record, so there is no
  warning and no rewrite; the next record is glued to it and both are lost, or the log refuses. A cut inside
  a multi-byte character makes the whole log unreadable. Both clauses hold exactly for the other cuts:
  `WriteAheadLog.AppendsSurviveCut`, `RecoveryLimits.AppendAfterTornAppend`.
- A failed append may still have written a complete record. If the checkpoint that repairs the database dies after
  the swap and before truncating, that record is replayed over a checkpoint that already covers it:
  `RecoveryLimits.FailedAppendThenCheckpoint`.
- "A crash at any point leaves one complete checkpoint" (src/engine/db/snapshot.rs:19-22): the swap removes
  `checkpoint.old/` first, so when that is the only checkpoint left, from an earlier crash between the two renames,
  a second crash leaves none: `RecoveryLimits.SwapLeavesCheckpoint` and `RecoveryLimits.TwoCrashedCheckpointsLoseAll`.
- `truncate` renames the empty log into place and then opens it (src/engine/wal.rs:97-107). If that opening fails the
  checkpoint reports an error, but the process goes on acknowledging appends to a file that no path leads to; they are
  lost unless a checkpoint follows: `RecoveryLimits.DetachedAppendsSurviveIff`.
- `sort_by` says whole-dataset statistics can be reused as they are (src/core/dataset_legacy.rs:547-550). In a
  column without an order the bounds are the first value seen, which sorting changes: `SortReuse.SortKeepsStatsIff`.
- `add_row` merges a row once per field, a rebuild once per column name; a nullable name that occurs twice counts its
  NULLs twice: `Partitions.AddRowAgreesIff`.
- The serialized form of a quantized vector is described as restoring the same vector (src/core/quant.rs:49-51).
  It does so for what the encoder produces; a code of -128, or a nonzero code with scale 0, does not come back:
  `Quantization.ReprRestoresIff`.
- `reshape` shares the buffer of its operand and reads it from the start (src/engine/kernels.rs:1189-1211,
  src/core/tensor.rs:282-315), so it scrambles a view that is not packed and shows the wrong elements of a slice:
  `Views.ReshapeKeepsValuesIffPacked`, `Views.ReshapeOfSliceExample`. The store refuses a tensor whose buffer is longer
  than its shape (src/core/store/tensor_store.rs:64-71), so statements reach the first case, a transposed matrix, and only
  callers of the kernels the second. The copying arms of the multi-dimensional slice read the buffer in the same way
  (src/engine/kernels.rs:1443-1508) and do not check the end of a row: `Views.RawReadsIffPacked`, `Views.RawRunsOn`.
- A mapped column is documented to lie within its map, "all checked against the header and the file size"
  (src/core/colbuf.rs:60-66). The stride and the section offsets are computed without overflow checks
  (src/core/colbuf.rs:163-177), so a release build accepts a file whose stride wraps and, unless the row is NULL, reads
  past its end: `ColumnOffsets.OpenedRowsStayIff`, `ColumnOffsets.WrappedFileIsAccepted`.
- `from_words` asks for words whose bits past the length are clear (src/core/bitvec.rs:33-40); a mapped column passes on
  what the file holds: `ColumnBits.ReadHoldsIff`, `ColumnBits.LongBitsExample`.
- A lazy name stands for its value in later lazy definitions, but `get` and the eager operations find no tensor until the
  name is evaluated (src/engine/db.rs:1759-1775), which only showing it does: `LazyEvaluation.EagerSeesEvaluation`,
  `LazyEvaluation.EagerAfterLazyExample`. Removing a name can show it too: `LazyEvaluation.RemovalSeesEvaluation`.
- Pruning keeps whatever a live entity needs (src/core/provenance.rs:523-531), but content is found by hash, so an
  entity that comes to exist later can need what was dropped: an alias of content whose latest record was pruned
  resolves to an earlier one. `Provenance.PruningIsInvisibleIff`, `Provenance.AliasSeesPruning`.
- `record_provenance` skips an input-free record of known content so that it cannot shadow an ancestry, and keeps one whose
  output is new (src/engine/db.rs:89-99). A record with two outputs, one of them new, is kept and does shadow the
  ancestry of the other: `ProvenanceRecording.RecordingHidesIff`, `ProvenanceRecording.TwoOutputsHideHistory`. No caller
  builds such a record today: the one builder of several outputs always has an input (src/engine/db.rs:2404-2412), and
  input-free records have one output (`ProvenanceRecording.OneOutputHidesNothing`).

## Model

| member | source | states |
|---|---|---|
| `Provenance.ProducerIsLatestMatch` | src/core/provenance.rs:431-455 | the two backward searches pick, among all records below the bound that hold the hash, the latest with the name, and only when no such record exists the latest with the hash; nothing exactly when no record holds the hash |
| `Provenance.ResolveIsAncestry` | src/core/provenance.rs:457-502 | the resolved tree is an ancestry: a root exactly when no record below the bound holds the entity's hash, else the data of the latest record with hash and name (with the hash alone when none has the name) over the ancestries of its inputs, looked up below it; a marker at the depth limit |
| `Provenance.AncestryIsUnique` | src/core/provenance.rs:457-502 | there is no other ancestry: that definition decides the tree |
| `Provenance.NeverTruncated` | src/core/provenance.rs:457-502 | as long as the searched part of the log is shorter than what is left of the depth limit of 256, the bounded walk is the unbounded one |
| `Provenance.ClosedHoldsUses` | src/core/provenance.rs:504-521 | any set closed under "producer of an input" and holding the roots' producers holds the whole unbounded ancestry walk |
| `Provenance.UsesIsChains` | src/core/provenance.rs:504-520 | a walk uses exactly the records that a chain of producers of inputs leads to from its entity |
| `Provenance.ProvenanceStore.ReachableIndices` | src/core/provenance.rs:504-521 | the worklist terminates and returns exactly the records that the unbounded ancestry walks of the roots use, neither more nor fewer |
| `Provenance.FindProducerRenumbered` | src/core/provenance.rs:431-455 | dropping any records other than the found producer leaves the same producer, moved to its rank among the kept records |
| `Provenance.ShownRenumbered` | src/core/provenance.rs:461-502 | trees whose nodes above the depth limit show no dropped record are the same, at the same depth, after the renumbering |
| `Provenance.ResolveRenumbered` | src/core/provenance.rs:461-502 | an ancestry walk that uses no dropped record gives the same forest at the same depth after the renumbering |
| `Provenance.UsesRenumbered` | src/core/provenance.rs:504-561 | the records such a walk uses are, renumbered, among those it uses in the rewritten log |
| `Provenance.PruneKeepsAncestry` | src/core/provenance.rs:532-561 | for every cutoff and every live root, pruning leaves the resolved ancestry tree exactly as it was |
| `Provenance.PruneIsIdempotent` | src/core/provenance.rs:532-561 | a second prune with the same arguments removes nothing |
| `Provenance.PrunedIs` | src/core/provenance.rs:523-561 | what pruning leaves are, in order, exactly the records whose timestamp is not before the cutoff and those that the walk of some live root uses |
| `Provenance.ProvenanceStore.PruneBefore` | src/core/provenance.rs:532-561 | the new log is the old one without exactly the stale records no live root uses, and all four report counts are exact (also those spared because live) |
| `Provenance.AppendKeepsClear` | src/core/provenance.rs:348-350 | appending a record keeps the walks of the entities that live after it clear of all that pruning ever dropped, if its inputs and those entities were live, are its outputs, have no producer (literals), or share their producer with a live entity (aliases) |
| `Provenance.LiveAndOutputsAreAdmissible` | src/core/provenance.rs:348-350 | the entities that exist already and the outputs of a record always satisfy that condition |
| `Provenance.RunIsKept` | src/core/provenance.rs:343-561 | over any run of appends, liveness changes and prunes whatever, the stored log is the never-pruned log without the records the prunes dropped |
| `Provenance.RunDropsOnlyUnused` | src/core/provenance.rs:343-561 | over any run in which what is consumed or newly exists is admissible in that sense, no dropped record is used by the walk of a live entity in the never-pruned log |
| `Provenance.PruningIsInvisible` | src/core/provenance.rs:343-561 | over any such run, every live entity resolves to the same ancestry as if nothing had ever been pruned |
| `Provenance.ProducerSurvivesIff` | src/core/provenance.rs:431-455 | for any entity, live or not, and any dropped records: its producer in the pruned log is the renumbered one it had (or none if it had none) if and only if it had none or its producer was kept |
| `Provenance.PruningIsInvisibleIff` | src/core/provenance.rs:343-561 | for any run and any entity, where no two records show as the same node: its ancestry is the never-pruned one if and only if its tree shows, above the depth limit, no dropped record |
| `Provenance.AliasSeesPruning` | src/engine/db.rs:1611-1645 | a concrete run: load `a`, filter it to `b` with the same content, remove `b`, prune, alias `a` as `c`; the alias resolves to the filter without the prune and to the load with it |
| `Provenance.ProvenanceStore.constructor` | src/core/provenance.rs:343-346 | a new store is empty |
| `Provenance.ProvenanceStore.Append` | src/core/provenance.rs:348-350 | the log is extended at its end and otherwise unchanged |
| `Provenance.ProvenanceStore.ResolveAncestry` | src/core/provenance.rs:457-502 | the tree returned is the ancestry of the entity over all records, and the only one |
| `ProvenanceRecording.RecordProvenance` | src/engine/db.rs:100-155 | the log after the call: skipped while restoring, skipped on replay or for an import of known content, appended otherwise |
| `ProvenanceRecording.RecordedWhen` | src/engine/db.rs:113-139 | during the replay of statements a record is kept exactly if some output has content that no record of the log has; during a restore none is; otherwise one is skipped exactly if it has no inputs, and outputs none of which is new |
| `ProvenanceRecording.ReplayAddsNothing` | src/engine/db.rs:113-129 | replaying a record that the log holds adds nothing |
| `ProvenanceRecording.ProducerAfterAppend` | src/core/provenance.rs:431-455 | how one more record changes the producer of any entity: it wins by name over everything, by hash only over hash matches |
| `ProvenanceRecording.HistoryIsShown` | src/core/provenance.rs:461-502 | an entity has a history exactly when its resolved tree has inputs |
| `ProvenanceRecording.RecordingKeepsHistory` | src/engine/db.rs:89-155 | a record that does not hide a history leaves every ancestry that was shown, shown, replaying or not |
| `ProvenanceRecording.RecordingHidesIff` | src/engine/db.rs:89-155 | for every record: recording it turns the ancestry of some entity into a bare root if and only if it is recorded, has no inputs, and some output has a history under its own name or under none |
| `ProvenanceRecording.OneOutputHidesNothing` | src/engine/db.rs:89-155 | a record with at most one output never does |
| `ProvenanceRecording.TwoOutputsHideHistory` | src/engine/db.rs:137-155 | a family of records that do: an input-free record with one known and one new output |
| `WalCodec.DecodeRoundTrip` | src/engine/wal.rs:134-145 | UTF-8 text reads back as itself |
| `WalCodec.DecodeCut` | src/engine/wal.rs:134-145 | encoded text cut anywhere decodes to a prefix of it or, when a character is split, not at all |
| `WalCodec.RecordTextParses` | src/engine/wal.rs:68-87 | the text of a record parses to that record, and to nothing when anything follows it on the line |
| `WalCodec.RecordTextCut` | src/engine/wal.rs:152-166 | no proper prefix of a record's text parses |
| `WalCodec.ReadRecords` | src/engine/wal.rs:134-186 | the line loop with its running sequence check gives the file's meaning: records, a warning for a bad last line, an error for a bad earlier line or a gap |
| `WalCodec.ReadIsConsecutive` | src/engine/wal.rs:152-166 | whatever bytes the file holds, records that are returned have no gap and no repeat |
| `WalCodec.ReadEncoded` | src/engine/wal.rs:134-186 | a log of consecutive records reads back as exactly those records, without a warning |
| `WalCodec.ReadWithTail` | src/engine/wal.rs:134-186 | for whole records followed by any unterminated tail the outcome is decided by the tail alone |
| `WalCodec.ReadAfterCut` | src/engine/wal.rs:122-186 | for every cut inside one further record: all committed records, the last one only if its text is complete (no warning then), a warning if the cut leaves whole characters, an error if it splits one |
| `WalCodec.ReadGlued` | src/engine/wal.rs:109-132 | after a cut exactly before the newline the next append shares its line: both records are lost with a warning if that line is last, and the log is an error if anything follows |
| `WriteAheadLog.Wal.Open` | src/engine/wal.rs:53-66 | an open log continues the file with the given sequence number |
| `WriteAheadLog.Wal.Append` | src/engine/wal.rs:68-87 | the file at the path grows by the record, whole or cut where the write stopped, and not at all when the log is detached; the sequence number advances only on success |
| `WriteAheadLog.Wal.LastSeq` | src/engine/wal.rs:89-92 | the number of the last acknowledged record |
| `WriteAheadLog.Wal.Truncate` | src/engine/wal.rs:97-107 | the file at the path becomes empty, the numbering continues, and the log is detached exactly when it cannot be opened again |
| `WriteAheadLog.Rewrite` | src/engine/wal.rs:109-126 | the new file is the encoding of exactly the given records |
| `WriteAheadLog.ReadTail` | src/engine/wal.rs:122-186 | whatever a log of whole records ends in (nothing, a torn record, a complete one without its newline, a split character), what reading gives and what repairing leaves |
| `WriteAheadLog.AppendsSurviveCut` | src/engine/wal.rs:68-186 | after a torn write and the repair, everything read before and every later append reads back, in order, if and only if the cut was clean: not just before the newline and not inside a character |
| `WriteAheadLog.ReadResumed` | src/engine/wal.rs:68-186 | what one acknowledged append after an unclean or clean cut reads back as, in every case that reads at all |
| `Recovery.StepKeepsInv` | src/engine/db/snapshot.rs:147-561 | every execute, checkpoint, crash, recovery and dying recovery keeps the account of the disk: checkpoint plus uncovered records, however the log ends, is the executed history but for at most one unlogged last statement |
| `Recovery.SafeRunsAreDurable` | src/engine/db/snapshot.rs:147-561 | over every run in which appends may fail or die after any byte and checkpoints stop anywhere, the recovered state is the state after a prefix of the successful statements that contains every acknowledged one; excluded are a death over an unreadable log, a checkpoint stopped after installation over a failed but complete record, an append onto an unfinished line, an append acknowledged on a detached log, and the window of the swap |
| `Recovery.CheckpointKeepsInv` | src/engine/db/snapshot.rs:252-399 | a checkpoint that completes (clearing `checkpoint.old/` or failing to), empties the log and fails to open it again, or stops at any safe point, dying or failing, keeps that account, and makes every applied statement safe once installed |
| `Recovery.CompletesRestoresInv` | src/engine/db/snapshot.rs:216-248 | a checkpoint that gets past the truncation accounts for the whole state of any running process, whatever was lost before |
| `Recovery.RecoverKeepsInv` | src/engine/db/snapshot.rs:403-561 | restore, repair and replay bring back the accounted state |
| `RecoveryLimits.FailedAppendThenCheckpoint` | src/engine/db/snapshot.rs:216-276 | an append that fails after `k` bytes, then a checkpoint that dies before truncating: recovery gives the right state if and only if the record was incomplete (in whole characters) or executing the statement twice is executing it once |
| `RecoveryLimits.AppendAfterTornAppend` | src/engine/db/snapshot.rs:486-529 | a statement acknowledged after a torn append and one recovery survives the next crash if and only if the torn cut was clean |
| `RecoveryLimits.DetachedAppendsAreLost` | src/engine/wal.rs:97-107 | any number of statements acknowledged on a detached log are gone after a crash: recovery gives the state at the detachment |
| `RecoveryLimits.DetachedAppendsSurviveIff` | src/engine/wal.rs:97-107 | with a checkpoint attempt before the crash, outside the window of the swap, they come back if and only if it was installed or they changed nothing |
| `RecoveryLimits.SplitCharacterExample` | src/engine/wal.rs:142-145 | a concrete record and cut that split a character |
| `RecoveryLimits.SwapLeavesCheckpoint` | src/engine/db/snapshot.rs:387-399 | a checkpoint stopped at a given point leaves something to restore if and only if it is outside the window in which the only checkpoint has been removed |
| `RecoveryLimits.TwoCrashedCheckpointsLoseAll` | src/engine/db/snapshot.rs:19-22 | a concrete run of two dying checkpoints, each followed by a recovery, that ends with no checkpoint and an empty log: the engine's initial state |
| `RecoveryLimits.LostCheckpointsBreakPromise` | src/engine/db/snapshot.rs:19-22 | no history of the promised kind explains that run |
| `RecoveryLimits.KeepsFirst` | src/engine/wal.rs:19-22 | without further statements, every history that explains a run keeps its first acknowledged statement |
| `TensorDb.TensorDb.constructor` | src/engine/db/snapshot.rs:118-145 | a fresh database with an empty log and no checkpoint |
| `TensorDb.TensorDb.ExecuteLogged` | src/dsl/mod.rs:336-386 | the process does what the protocol step says: refuse when the log is broken, apply, then append; acknowledged exactly when all three succeed, also on a detached log |
| `TensorDb.TensorDb.TakeCheckpoint` | src/engine/db/snapshot.rs:252-399 | the process does what the protocol step says: write, swap one rename at a time, clear `checkpoint.old/` or fail to unnoticed, put the empty log in place, open it or fail to, stopping after any of them |
| `TensorDb.TensorDb.Replay` | src/engine/db/snapshot.rs:486-529 | the replay loop over the records past the checkpoint computes the protocol's recovered process, failures included |
| `TensorDb.TensorDb.Restart` | src/engine/db/snapshot.rs:486-561 | a new process over the same disk is the recovered one, or refuses with the same reason |
| `PeakSweep.AllMatchesExact` | src/core/spectral.rs:88-109 | the all-pairs reference holds exactly the pairs within tolerance, each once, in lexicographic order |
| `PeakSweep.AllMatchesAre` | src/core/spectral.rs:88-109 | the all-pairs reference holds a pair exactly when its m/z values, the second one shifted, differ by at most the tolerance |
| `PeakSweep.FindMatches` | src/core/spectral.rs:88-109 | on ascending peak lists the sweep with its moving lower bound appends exactly the all-pairs result |
| `PeakSweep.MatchRow` | src/core/spectral.rs:94-107 | one row of the sweep finds the row's matches and moves the bound only past peaks too low for every later row |
| `CosineGreedy.CandidatesExact` | src/core/spectral.rs:111-127 | the candidates are the pairs within tolerance, plain and shifted; each occurs once for each of the two ways in which it is |
| `CosineGreedy.ConsideredOrder` | src/core/spectral.rs:128-134 | candidates are considered heaviest first, all of them, equal weights in reverse order of generation |
| `CosineGreedy.TakenIsOneToOne` | src/core/spectral.rs:135-145 | no peak of either spectrum is taken twice |
| `CosineGreedy.RejectedIsBlocked` | src/core/spectral.rs:135-145 | each rejected pair shares a peak with a taken pair of at least its weight |
| `CosineGreedy.GreedyIsHalfOptimal` | src/core/spectral.rs:128-145 | for non-negative weights greedy takes at least half of any matching among the pairs offered |
| `CosineGreedy.SelectedIsHalfOptimal` | src/core/spectral.rs:111-145 | the same for a whole call: at least half of every one-to-one pairing of candidate peaks, plain and shifted |
| `CosineGreedy.MatchingWithinNorms` | src/core/spectral.rs:111-153 | for any one-to-one choice of pairs, the squared sum is at most the product of both spectra's squared norms |
| `CosineGreedy.ScoreAtMostOne` | src/core/spectral.rs:146-153 | the normalized square of the sum lies between 0 and 1, for the plain and the shifted cosine |
| `CosineGreedy.ScoreInUnitInterval` | src/core/spectral.rs:146-153 | for any square root, the score lies between -1 and 1, and between 0 and 1 when no selected weight is negative |
| `CosineGreedy.TakeGreedily` | src/core/spectral.rs:135-145 | the loop over used flags computes the sum and the number of the greedily taken pairs |
| `CosineGreedy.CosineGreedy` | src/core/spectral.rs:111-153 | the whole computation on ascending peak lists gives the sum of the selected weights over the product of the norms (0 for no pairs or a zero norm) and their number |
| `CosineSelf.ConsideredIsOrdered` | src/core/spectral.rs:128-134 | of any two candidates of one plain search the heavier is considered first, of equal ones the one generated later |
| `CosineSelf.DiagonalIsTaken` | src/core/spectral.rs:135-145 | of a spectrum and itself greedy takes every peak of some weight with itself, and no crossing pair of some weight, however close the peaks are |
| `CosineSelf.SelfSumIsNorm` | src/core/spectral.rs:111-153 | the weights it sums then are the squared norm |
| `CosineSelf.SelfScoresOne` | src/core/spectral.rs:111-153 | identical spectra score exactly 1, or 0 when all weights are 0; with or without a shift that is within the tolerance |
| `CosineSelf.ScoreTimesNorms` | src/core/spectral.rs:146-153 | the score times the norms is the selected sum |
| `CosineSelf.NormsSquared` | src/core/spectral.rs:146-153 | the square of those norms is the product of the sums of the squared weights |
| `CauchySchwarz.BoundedSum` | src/core/spectral.rs:146-153 | the Cauchy-Schwarz bound survives adding one more bounded term |
| `CauchySchwarz.SumAtDistinct` | src/core/spectral.rs:146-153 | non-negative values at distinct places sum to at most all of them |
| `CauchySchwarz.NormalizedAtMostOne` | src/core/spectral.rs:146-153 | a bounded sum, normalized, is at most 1, also when a norm is zero |
| `StableSort.SortSorts` | src/core/spectral.rs:133-134 | sorting is ascending and a permutation |
| `StableSort.SortIsStable` | src/core/spectral.rs:133-134 | elements with equal keys keep their order |
| `StableSort.ReverseReversesTies` | src/core/spectral.rs:133-134 | reversing afterwards turns the order of ties round |
| `EntropySweep.SweepIsMatching` | src/core/spectral.rs:231-244 | the two-pointer sweep pairs each peak at most once, in order, within tolerance |
| `EntropySweep.SweepIsMaximum` | src/core/spectral.rs:231-244 | no one-to-one pairing within tolerance has more pairs than the sweep (by exchange) |
| `EntropySweep.SweepSwaps` | src/core/spectral.rs:231-244 | swapping the spectra swaps the pairs |
| `EntropySweep.SweepIsExactWhenSeparated` | src/core/spectral.rs:200-205 | on centroided spectra (gaps above twice the tolerance) the sweep finds exactly the pairs within tolerance |
| `EntropySweep.GainSumSwaps` | src/core/spectral.rs:231-247 | the summed gain does not depend on which spectrum comes first |
| `EntropySweep.EntropySum` | src/core/spectral.rs:231-244 | the loop sums the gains over exactly the swept pairs |
| `EntropyScore.Intensities` | src/core/spectral.rs:165-193 | scaled and weighted intensities are non-negative and sum to 1, and are missing exactly when every intensity is 0 |
| `EntropyScore.IntensitiesKeepProportions` | src/core/spectral.rs:165-193 | unweighted, or at an entropy of 3 or more, each intensity times the sum of the given ones is the given one |
| `EntropyScore.IntensitiesArePowers` | src/core/spectral.rs:165-193 | weighted at a lower entropy `h`, they are in the proportions of the scaled intensities to the power of 0.25 + 0.25 h, and 0 where the given one is |
| `EntropyScore.FewPeaksAreWeighted` | src/core/spectral.rs:165-193 | the entropy compared with 3 lies between 0 and the natural logarithm of the number of peaks |
| `EntropyScore.BinaryGain` | src/core/spectral.rs:155-163 | for every binary logarithm the gain of a pair lies between 0 and the sum of both, is that sum when they are equal, and does not depend on their order |
| `Logarithms.GainIsBounded` | src/core/spectral.rs:155-163 | for every function that turns products into sums, lies below a tangent at 1 and is 1 at 2: f(p + q) - f(p) - f(q) with f(x) = x log x is between 0 and p + q |
| `Logarithms.EntropyIsBounded` | src/core/spectral.rs:170-185 | the entropy of intensities that sum to 1 lies between 0 and the logarithm of their number |
| `Logarithms.EntropyOfUniform` | src/core/spectral.rs:170-185 | and reaches it when all are equal |
| `EntropyScore.ScoreInUnitInterval` | src/core/spectral.rs:199-247 | on intensities that sum to 1 the half sum already lies in [0, 1], so the final clamp never acts |
| `EntropyScore.IdenticalScoresOne` | src/core/spectral.rs:199-247 | identical spectra score exactly 1 |
| `EntropyScore.EntropySimilarity` | src/core/spectral.rs:205-247 | checks, scalings, sweep loop and clamp give the specified score, error or 0 for silence |
| `EntropyScore.SimilarityRefuses` | src/core/spectral.rs:205-230 | refused exactly for a negative tolerance or a negative intensity; 0 when either spectrum is silent |
| `EntropyScore.SimilarityIsHalfTheGain` | src/core/spectral.rs:205-247 | for all accepted spectra that are not silent the score is half the summed gain, which lies in [0, 1]: the clamp never acts |
| `EntropyScore.SimilarToItself` | src/core/spectral.rs:195-204 | a spectrum scores exactly 1 against itself, unless all its intensities are 0: then 0 |
| `EntropyScore.SimilaritySwaps` | src/core/spectral.rs:195-247 | the score does not depend on which spectrum comes first |
| `Centroid.HeaviestFirst` | src/core/spectral.rs:277-316 | whenever a peak is merged it is the most intense of those still unmerged |
| `Centroid.MergeOneConserves` | src/core/spectral.rs:277-316 | one merge moves the run's intensity and its intensity-weighted m/z into the merged peak, which lies inside the m/z range |
| `Centroid.MergeOneShrinks` | src/core/spectral.rs:277-316 | one merge uses up a live peak, or two when it breaks up a pair closer than `d` |
| `Centroid.MergeAllConserves` | src/core/spectral.rs:277-316 | a round moves all intensity and all weighted m/z into the merged peaks |
| `Centroid.MergeAllIsProper` | src/core/spectral.rs:277-316 | merged peaks have positive intensity and m/z inside the original range |
| `Centroid.MergeAllShrinks` | src/core/spectral.rs:277-316 | a round makes at most as many peaks as were live, and fewer if two neighbours were closer than `d` |
| `Centroid.RoundShrinks` | src/core/spectral.rs:281-316 | while the outer loop runs, the peak count strictly decreases: the loop terminates |
| `Centroid.RoundConserves` | src/core/spectral.rs:281-316 | a sorted round conserves total intensity and weighted m/z within the range and comes out ascending |
| `Centroid.CentroidConserves` | src/core/spectral.rs:277-316 | the result conserves total intensity and weighted m/z, stays in the m/z range, is sorted with every gap at least `d`, never grows, and is the input exactly when the input was already centroided |
| `CentroidWindows.RunIsWindow` | src/core/spectral.rs:294-300 | on ascending peaks the run around a peak is exactly the peaks within `d` of that peak |
| `CentroidWindows.MergeTakesWindow` | src/core/spectral.rs:294-308 | a merge silences exactly those peaks and leaves all others as they are |
| `CentroidWindows.RunHoldsWindow` | src/core/spectral.rs:301-303 | what the run adds up to, of any quantity, is the sum over exactly those peaks |
| `CentroidWindows.MergeOneIsMerge` | src/core/spectral.rs:288-308 | the merged peak has the intensity and the moment of exactly those peaks |
| `CentroidWindows.NextIsHeaviest` | src/core/spectral.rs:284-290 | the next peak merged is the most intense one left, of equal ones the last |
| `CentroidWindows.RoundIs` | src/core/spectral.rs:281-312 | a round is such merges, heaviest first, until nothing is left, sorted stably by m/z |
| `CentroidWindows.MergesToIsUnique` | src/core/spectral.rs:281-312 | that decides the merged peaks: there is only one way |
| `CentroidWindows.CentroidIsRounds` | src/core/spectral.rs:277-316 | centroiding is such rounds, each on a list with neighbours closer than `d`, until one has none |
| `Centroid.SilenceInPlace` | src/core/spectral.rs:303-308 | the loop zeroes exactly the merged intensities and leaves all else |
| `Centroid.MergeInPlace` | src/core/spectral.rs:288-308 | the window loops and the in-place zeroing make the specified merge |
| `Centroid.Visit` | src/core/spectral.rs:284-309 | one turn of the round, skipping peaks already merged |
| `Centroid.MergeRound` | src/core/spectral.rs:281-312 | the whole round, in place, gives the specified peaks |
| `Centroid.Centroid` | src/core/spectral.rs:281-316 | the in-place rounds compute the specified centroiding |
| `Cleaning.KeptIncrease` | src/core/spectral.rs:356-368 | the positions kept by intensity come back strictly increasing and in range |
| `Cleaning.RetainCounts` | src/core/spectral.rs:345-355 | keeping by a predicate keeps every occurrence of every peak that satisfies it, and nothing else |
| `Cleaning.MostIntenseIs` | src/core/spectral.rs:356-368 | keeping the most intense peaks picks that many positions in order, each one outranking every position not picked |
| `Cleaning.KeptOutranksDropped` | src/core/spectral.rs:318-328 | each kept peak is more intense than each dropped one, or as intense at a higher m/z |
| `Cleaning.PickedPeaks` | src/core/spectral.rs:356-368 | keeping the most intense peaks keeps a valid, still centroided sub-list of the promised size |
| `Cleaning.SelectedBelongs` | src/core/spectral.rs:330-368 | without centroiding and limit, a peak is selected, as often as it occurs, if and only if it is acceptable and reaches the floor |
| `Cleaning.SelectedIs` | src/core/spectral.rs:330-368 | in general the selected peaks are those of the centroided acceptable ones that reach the floor and are among the most intense, in order |
| `Cleaning.SelectedIsClean` | src/core/spectral.rs:318-368 | the selected list is ascending, acceptable, centroided, above its own floor and short enough, all at once |
| `Cleaning.CleanIsSelected` | src/core/spectral.rs:318-368 | a list with those properties is selected whole |
| `Cleaning.SettledIsSelectedIff` | src/core/spectral.rs:318-368 | of a list that is acceptable, centroided and short enough, every peak is selected again if and only if it is above its own floor |
| `Cleaning.NormalizedScale` | src/core/spectral.rs:374-385 | after normalizing, the highest intensity (or the sum) is 1 |
| `Cleaning.CleanedIs` | src/core/spectral.rs:369-386 | what cleaning returns is the selected peaks, each intensity raised and divided by the highest, by the sum, or not at all |
| `Cleaning.CleanRefuses` | src/core/spectral.rs:330-344 | cleaning is refused exactly for parameters outside their ranges |
| `Cleaning.CleaningTwice` | src/core/spectral.rs:318-386 | for every accepted parameter choice and power: cleaning again keeps all peaks if and only if they are above the floor, and changes nothing if and only if moreover raising and normalizing fix them; with power 1 it never changes anything |
| `Cleaning.SquaringTwice` | src/core/spectral.rs:369-373 | with power 2 a concrete spectrum that each cleaning changes |
| `Tensors.RavelInverts` | src/core/tensor.rs:462-478 | position to multi-index undoes multi-index to position |
| `Tensors.UnravelInverts` | src/core/tensor.rs:462-478 | and the other way round |
| `Tensors.UnravelIsLexicographic` | src/core/tensor.rs:462-478 | earlier elements have lexicographically smaller indices: the last index varies fastest |
| `Tensors.NewTensorIsInBounds` | src/core/tensor.rs:254-279 | a new tensor stays inside its buffer and its logical values are the data |
| `Tensors.FromSharedIsInBounds` | src/core/tensor.rs:282-315 | a shared buffer at least as long as the shape is accepted; the tensor stays inside it and reads its front |
| `Tensors.ContiguousIsPrefix` | src/core/tensor.rs:365-402 | a contiguous tensor's logical values are the front of its buffer |
| `Tensors.AdvanceIsNext` | src/core/tensor.rs:462-478 | one odometer step on the index of element `k` gives that of `k + 1`, and wraps to the first exactly at the last |
| `Tensors.AdvanceInPlace` | src/core/tensor.rs:462-478 | the in-place odometer step moves indices and running offset together, never recomputing an address |
| `Tensors.ComputeDefaultStrides` | src/core/tensor.rs:243-252 | the loop gives row-major strides |
| `Tensors.IsContiguous` | src/core/tensor.rs:365-387 | answers yes exactly for default strides from offset 0 |
| `Tensors.AsContiguousSlice` | src/core/tensor.rs:391-403 | a slice exactly for contiguous tensors, and then the logical values |
| `Tensors.VectorValues` | src/core/tensor.rs:420-442 | the rank-1 loop gives the logical values |
| `Tensors.MatrixValues` | src/core/tensor.rs:443-458 | the rank-2 nested loops give the logical values |
| `Tensors.WalkOdometer` | src/core/tensor.rs:459-481 | the N-dimensional odometer gives the value at `offset + sum of index * stride` for every position, in order |
| `Tensors.StridedValues` | src/core/tensor.rs:426-481 | one loop, two loops or odometer: the same logical values |
| `Tensors.ToLogicalVec` | src/core/tensor.rs:420-481 | every path gives the logical values, for every rank, strides and offset in bounds |
| `Views.TransposeReads` | src/engine/kernels.rs:1152-1182 | a transposed matrix stays in bounds and reads with its indices swapped |
| `Views.Slice` | src/engine/kernels.rs:1291-1345 | a slice is accepted exactly for a dimension of the tensor and a range that is not empty and inside it; that dimension alone becomes shorter |
| `Views.SliceReads` | src/engine/kernels.rs:1291-1345 | an accepted slice stays in bounds and reads with one index shifted |
| `Views.ChainReadsSource` | src/engine/kernels.rs:1152-1345 | every chain of transposes and slices stays in bounds and reads its source through the composed index map |
| `Views.ChainOfNew` | src/engine/kernels.rs:1152-1345 | from a new tensor, such a chain reads the data at the row-major position of the composed index |
| `Views.TransposeTwice` | src/engine/kernels.rs:1152-1182 | transposing twice gives the tensor back |
| `Views.SliceOfSlice` | src/engine/kernels.rs:1291-1345 | a slice of a slice along one dimension is one slice |
| `Views.Index` | src/engine/kernels.rs:1348-1374 | a value for exactly the valid indices, and then that element |
| `Views.IndexIsLogical` | src/engine/kernels.rs:1348-1374 | indexing agrees with the traversals at every position |
| `Views.Flatten` | src/engine/kernels.rs:1217-1279 | one dimension, the same logical values in the same order, whatever the layout |
| `Views.ReshapeReadsBuffer` | src/engine/kernels.rs:1189-1211 | an accepted reshape is in bounds and reads the front of the buffer, whatever part of it the view showed |
| `Views.ReshapeAcceptsViews` | src/engine/kernels.rs:1189-1211 | any chain of transposes and slices of a new tensor can be reshaped to exactly the shapes of its element count |
| `Views.ReshapeKeepsValuesIffPacked` | src/engine/kernels.rs:1189-1211 | for a given layout, reshape keeps the logical values of every buffer of that length if and only if there are no elements, or the layout is packed from offset 0 |
| `Views.ReshapeOfVectorSlice` | src/engine/kernels.rs:1189-1211 | reshaping a slice of a vector reads as many elements from the start of the vector |
| `Views.ReshapeOfSliceExample` | src/engine/kernels.rs:1189-1211 | reshaping elements 1..3 of a 3-vector gives its elements 0 and 1 |
| `Views.ReshapeOfTransposeExample` | src/engine/kernels.rs:1189-1211 | reshaping the transpose of a 2 by 2 matrix undoes the transpose |
| `Views.RawReadsIffPacked` | src/engine/kernels.rs:1443-1508 | the copying arms of the multi-dimensional slice read `data[i * cols + j]`: over every buffer of the given length these are the elements if and only if the matrix is empty or packed from offset 0 |
| `Views.RawRunsOn` | src/engine/kernels.rs:1443-1508 | and a column past the end of a row is not refused by them: it reads the next row |
| `Matmul.RowByColumn` | src/engine/kernels.rs:1086-1146 | the inner loop takes every term: its bounds guard never skips one on in-bounds operands |
| `Matmul.MatmulBuiltin` | src/engine/kernels.rs:1086-1146 | every entry of the result is the inner product of a row and a column |
| `Matmul.Multiply` | src/engine/kernels.rs:984-1024 | refused exactly for operands that are not matrices of matching size; otherwise the product of the logical matrices |
| `Matmul.ProductIgnoresLayout` | src/engine/kernels.rs:1086-1146 | the product depends on the logical matrices only |
| `Matmul.TransposedProduct` | src/engine/kernels.rs:1086-1182 | over exact arithmetic the product of the transposes, swapped, is the transpose of the product |
| `Matmul.SlicedProduct` | src/engine/kernels.rs:1086-1345 | multiplying a slice of the rows is slicing the rows of the product |
| `Matmul.ProductAssociates` | src/engine/kernels.rs:1086-1146 | (AB)C and A(BC) are the same matrix |
| `Matmul.IdentityProduct` | src/engine/kernels.rs:1086-1146 | multiplying by the identity changes nothing |
| `Elementwise.ZipContiguous` | src/engine/kernels.rs:35-60 | the slice path combines pairs in order |
| `Elementwise.ZipLines` | src/engine/kernels.rs:131-372 | two strided lines side by side combine as their logical values do |
| `Elementwise.ZipMatrices` | src/engine/kernels.rs:131-372 | the rank-2 path combines as the logical values do |
| `Elementwise.AdvancePair` | src/engine/kernels.rs:80-117 | the odometer with two offsets keeps both addresses right |
| `Elementwise.ZipOdometer` | src/engine/kernels.rs:80-117 | the N-dimensional path combines as the logical values do |
| `Elementwise.ZipSameShape` | src/engine/kernels.rs:35-117 | on equal shapes the path is chosen by layout and rank, the outcome is not |
| `Elementwise.ZipStretch` | src/engine/kernels.rs:131-372 | combining one stretch after another is combining the whole, up to the first refusal |
| `Elementwise.ZipIsPointwise` | src/engine/kernels.rs:131-372 | success exactly when every pair succeeds, each value its pair's |
| `Elementwise.CombineIs` | src/engine/kernels.rs:131-372 | the operation in full: it succeeds exactly for equal shapes, a scalar on either side or two vectors, if no pair is refused; the shape of the result; and each value is its pair of contributions, a scalar repeated and the shorter vector padded |
| `Elementwise.OperandValues` | src/engine/kernels.rs:131-372 | each operand's values are its logical ones |
| `Elementwise.PadVectors` | src/engine/kernels.rs:131-372 | vectors of different lengths combine as if padded with the neutral elements |
| `Elementwise.ElementwiseBinary` | src/engine/kernels.rs:131-372 | the kernel computes a function of shapes and logical values: equal shapes, scalar broadcast, padding or a shape error, never depending on layout |
| `Elementwise.ScaleValues` | src/engine/kernels.rs:490-553 | every value is multiplied by the factor |
| `Elementwise.ScalarMul` | src/engine/kernels.rs:490-553 | the same shape with every logical value scaled, whatever the layout |
| `Elementwise.SumTensor` | src/engine/kernels.rs:651-697 | a rank-0 tensor holding the sum of the logical values, whatever the layout |
| `Elementwise.SumOdometer` | src/engine/kernels.rs:651-697 | the N-dimensional path sums the logical values |
| `Elementwise.AddAndMultiplyCommute` | src/engine/kernels.rs:921-955 | addition and multiplication commute, broadcasting and padding included |
| `Elementwise.AddThenSubtract` | src/engine/kernels.rs:921-943 | subtracting what was added leaves the first operand, brought to the common shape |
| `Elementwise.SubtractThenAdd` | src/engine/kernels.rs:921-943 | adding what was subtracted leaves the first operand, brought to the common shape with zeros |
| `Elementwise.DivideThenMultiply` | src/engine/kernels.rs:945-978 | a quotient times the divisor is the dividend, brought to the common shape |
| `Elementwise.MultiplyByScalar` | src/engine/kernels.rs:945-955 | multiplying by a rank-0 tensor is scaling every value |
| `Elementwise.DivideRefuses` | src/engine/kernels.rs:957-978 | division is refused exactly for unsupported shapes or a zero among the divisors that are used |
| `Elementwise.SumOfAdd` | src/engine/kernels.rs:651-697 | without broadcasting, the sum of a sum is the sum of the sums: padding adds nothing |
| `Elementwise.SumOfScaled` | src/engine/kernels.rs:486-697 | the sum of a scaled vector is the scaled sum |
| `Elementwise.SumOfOne` | src/engine/kernels.rs:651-697 | a value among zeros sums to itself |
| `LazyEvaluation.ApplyKeepsValid` | src/engine/db.rs:1579-1645 | every database step keeps the name table and both stores consistent |
| `LazyEvaluation.UnaryMeans` | src/engine/db.rs:3516-3538 | a captured unary operator evaluates its operand and then its kernel, for exactly the operators that have one |
| `LazyEvaluation.BinaryMeans` | src/engine/db.rs:3486-3514 | a captured binary operator evaluates both operands and then its kernel, for exactly the operators that have one |
| `LazyEvaluation.EvaluateChangesNothing` | src/engine/db.rs:3599-3628 | evaluating a name changes the value of no name, its own included, and adds or drops no name |
| `LazyEvaluation.StepSeesEvaluation` | src/engine/db.rs:1759-3628 | of two states that differ only in what has been evaluated: a step answers alike and leaves them so if and only if it removes no tensor from another name in the one alone, reads no name that is evaluated in the one alone, and, as an eager operation, finds its operands alike |
| `LazyEvaluation.StepStaysAhead` | src/engine/db.rs:1759-3628 | the half of that which carries over to runs |
| `LazyEvaluation.EagerSeesEvaluation` | src/engine/db.rs:1759-2020 | an eager operation on any operands answers alike if and only if, up to the first lookup that fails, no operand is evaluated in the one state alone (or a later lookup fails with the same message) |
| `LazyEvaluation.FoundOperandsSee` | src/engine/db.rs:1759-1775 | when the evaluated state holds all operands, that is: no operand is evaluated there alone |
| `LazyEvaluation.EagerKind` | src/engine/db.rs:1778-2017 | the result of a binary operation, a product or a stack is strict exactly when some operand is, else normal; any other has the kind of its first operand |
| `LazyEvaluation.RunsStayAhead` | src/engine/db.rs:3486-3628 | over whole runs that satisfy that condition step by step the states stay so and every call answers alike |
| `LazyEvaluation.EvaluationTimeIsInvisible` | src/engine/db.rs:3486-3628 | over any such run, evaluating early, late, often or never gives the same answers and the same names with the same values and the same errors |
| `LazyEvaluation.SucceedingRunsCannotSee` | src/engine/db.rs:1759-3628 | every run without removals that succeeds with no evaluation in it gives the same answers and values with evaluations anywhere |
| `LazyEvaluation.RunKeepsMeaning` | src/engine/db.rs:3486-3628 | a name keeps its value through every run that neither rebinds it nor removes a name it shares its tensor with |
| `LazyEvaluation.DefinitionDenotes` | src/engine/db.rs:3486-3597 | a unary, binary or matrix-product definition is accepted exactly when its operands and operator are known, and its value is then the kernel over the operand values at definition time |
| `LazyEvaluation.DefinitionIsFixed` | src/engine/db.rs:3486-3628 | and stays so through every later run that neither rebinds the name nor removes one it shares its tensor with, whatever happens to the operands |
| `LazyEvaluation.DefinitionIsEager` | src/engine/db.rs:3486-3560 | over stored operands a definition means what the eager operation of the same name computes |
| `LazyEvaluation.LazyMeansEager` | src/engine/db.rs:1778-2017 | defining a binary, unary or product operation lazily and evaluating it stores what the eager operation stores, when the backend runs the kernel of the same operator |
| `LazyEvaluation.RemovalSeesEvaluation` | src/engine/db.rs:316-322 | removing a name shows no difference between an evaluated and an unevaluated state if and only if every other name that loses its tensor with it in the one also loses it in the other |
| `LazyEvaluation.RemovalAnswers` | src/engine/db.rs:316-322 | removal answers whether there was a tensor: alike in both unless the name is evaluated in the one alone |
| `LazyEvaluation.AliasThenRemove` | src/engine/db.rs:1611-1645 | an alias outlives the removal of its source exactly when the source is lazy |
| `LazyEvaluation.EvaluateBindRemoveExample` | src/engine/db.rs:1611-1645 | a concrete run in which evaluating before binding loses the alias |
| `LazyEvaluation.EagerAfterLazyExample` | src/engine/db.rs:1759-1775 | a concrete run: after `LAZY LET c = ADD a b`, reading `c` and `LET d = ADD c a` fail before `c` is evaluated and succeed after |
| `LazyDatabase.DatabaseInstance.constructor` | src/engine/db.rs:1579-1610 | a new instance is empty and consistent |
| `LazyDatabase.DatabaseInstance.InsertNamedWithKind` | src/engine/db.rs:1579-1610 | the fields change as one insert step, consistency kept |
| `LazyDatabase.DatabaseInstance.BindResource` | src/engine/db.rs:1611-1645 | the fields change as one alias step; refused, and unchanged, for an unknown source |
| `LazyDatabase.DatabaseInstance.RemoveTensor` | src/engine/db.rs:316-322 | the name goes, and the tensor behind it; the answer says whether there was one |
| `LazyDatabase.DatabaseInstance.Get` | src/engine/db.rs:1759-1775 | the stored tensor of the name whatever its kind; an error for an unknown name or one without a stored tensor |
| `LazyDatabase.DatabaseInstance.EvalEager` | src/engine/db.rs:1778-2020 | operands looked up in order, the kernel run, the result stored under the output name with the inherited kind; nothing changes when any of it is refused |
| `LazyDatabase.DatabaseInstance.GetExpressionOrLiteral` | src/engine/db.rs:3555-3574 | a lazy name gives its expression, any other its tensor as a literal, nothing changes |
| `LazyDatabase.DatabaseInstance.Register` | src/engine/db.rs:3576-3597 | the fields change as one registration |
| `LazyDatabase.DatabaseInstance.EvalLazyBinary` | src/engine/db.rs:3486-3514 | the fields change as one binary definition, or not at all when refused |
| `LazyDatabase.DatabaseInstance.EvalLazyUnary` | src/engine/db.rs:3516-3538 | the fields change as one unary definition, or not at all when refused |
| `LazyDatabase.DatabaseInstance.EvalLazyMatmul` | src/engine/db.rs:3540-3553 | the fields change as one product definition, or not at all when refused |
| `LazyDatabase.DatabaseInstance.EvaluateName` | src/engine/db.rs:3599-3628 | the fields change as one evaluation, and no name changes its value |
| `Words.BitOfAnd` | src/core/bitvec.rs:176-186 | `&` acts bit by bit |
| `Words.BitOfOr` | src/core/bitvec.rs:176-186 | `\|` acts bit by bit |
| `Words.BitOfXor` | src/core/bitvec.rs:218-226 | `^` acts bit by bit |
| `Words.SameBitsSameWord` | src/core/bitvec.rs:16-22 | words are equal when their bits are |
| `Words.ClearLowest` | src/core/bitvec.rs:206-214 | `w & (w - 1)` is smaller and drops exactly the lowest set bit: the loop ends |
| `Words.CountOnesIsCardinality` | src/core/bitvec.rs:161-163 | the population count is the number of set positions |
| `BitVectors.SameBitsSameWords` | src/core/bitvec.rs:16-22 | with cleared padding, comparing words compares bit vectors |
| `BitVectors.SetKeeps` | src/core/bitvec.rs:68-81 | setting a bit changes that bit only and keeps the padding clear |
| `BitVectors.CountIsCardinality` | src/core/bitvec.rs:161-163 | counting words counts the true bits, the padding adds nothing |
| `BitVectors.ZippedBits` | src/core/bitvec.rs:176-226 | a gate word by word is the gate bit by bit, padding included |
| `BitVectors.ZippedCount` | src/core/bitvec.rs:176-226 | counting the gated words counts the corresponding set of positions |
| `BitVectors.SumSetBits` | src/core/bitvec.rs:206-214 | the clear-lowest-bit loop terminates and sums exactly the set positions of the word |
| `BitVectors.FlatIsBitSum` | src/core/bitvec.rs:198-216 | summing word by word is summing over the true bits |
| `BitVectors.PackedFormIsUnique` | src/core/bitvec.rs:108-142 | each vector has one packed byte form |
| `BitVectors.PackedBitsAreUnique` | src/core/bitvec.rs:108-142 | each packed form of a length has one vector: bytes round-trip both ways |
| `BitVectors.PackedByteIs` | src/core/bitvec.rs:108-142 | a packed byte is eight bits read as a binary number, the first bit the highest, bits past the end 0 |
| `BitVectors.BitVec.Zeros` | src/core/bitvec.rs:26-32 | all bits clear, padding clear |
| `BitVectors.BitVec.Get` | src/core/bitvec.rs:64-66 | the bit, and false past the end |
| `BitVectors.BitVec.Set` | src/core/bitvec.rs:68-81 | exactly one bit changes |
| `BitVectors.BitVec.FromBitString` | src/core/bitvec.rs:84-100 | accepted exactly for strings of 0 and 1, bit by bit |
| `BitVectors.BitVec.ToBitString` | src/core/bitvec.rs:102-106 | one character per bit, so the two layouts are inverse |
| `BitVectors.BitVec.UnpackBit` | src/core/bitvec.rs:116-128 | one step of unpacking: the prefix read so far, or the offending bit past the end |
| `BitVectors.BitVec.UnpackByte` | src/core/bitvec.rs:116-128 | one byte of unpacking |
| `BitVectors.BitVec.FromBytes` | src/core/bitvec.rs:108-130 | accepted exactly for the right byte count with clear bits past the end, and then the packed form of the result |
| `BitVectors.BitVec.ToBytes` | src/core/bitvec.rs:132-142 | the packed form of the bits |
| `BitVectors.BitVec.CountOnes` | src/core/bitvec.rs:161-163 | the number of true bits |
| `BitVectors.BitVec.AndOr` | src/core/bitvec.rs:176-186 | the sizes of the intersection and of the union |
| `BitVectors.BitVec.TanimotoWith` | src/core/bitvec.rs:188-194 | the Tanimoto similarity of the two sets, refused exactly for different lengths |
| `BitVectors.BitVec.HammingTo` | src/core/bitvec.rs:218-226 | the number of differing positions, refused exactly for different lengths |
| `BitVectors.BitVec.DotDense` | src/core/bitvec.rs:198-216 | the sum of the vector over the true bits, refused exactly for another length |
| `Tanimoto.InclusionExclusion` | src/core/bitvec.rs:176-186 | \|a and b\| + \|a or b\| = \|a\| + \|b\| |
| `Tanimoto.DistanceIsMetric` | src/core/bitvec.rs:218-226 | Hamming distance is a metric |
| `Tanimoto.SimilarityBounds` | src/core/bitvec.rs:188-194 | symmetric, in [0, 1], and 1 exactly on equal vectors |
| `Tanimoto.DissimilarityIsShare` | src/core/bitvec.rs:188-194 | one minus similarity is the share of the union on which they differ |
| `Tanimoto.DissimilarityTriangle` | src/core/bitvec.rs:188-194 | one minus similarity satisfies the triangle inequality |
| `Quantization.RoundIsNearest` | src/core/quant.rs:135-147 | rounding moves by at most one half and is odd |
| `Quantization.RoundIs` | src/core/quant.rs:135-147 | the rounded number is the one within one half, and of two such ones that farther from zero |
| `Quantization.ClampNeverActs` | src/core/quant.rs:135-147 | every rounded quotient already lies in -127..127 |
| `Quantization.ErrorIsHalfAStep` | src/core/quant.rs:135-159 | each element is restored within half a step, which is max\|x\| / 254 |
| `Quantization.CodesKeepOrder` | src/core/quant.rs:135-147 | codes keep the order of the elements |
| `Quantization.LargestIsExact` | src/core/quant.rs:135-159 | the element of largest magnitude is restored exactly |
| `Quantization.QuantizeIsStable` | src/core/quant.rs:117-159 | quantizing what was restored gives the same scale and codes |
| `Quantization.ReprRestoresIff` | src/core/quant.rs:50-104 | the serialized form restores a vector if and only if its codes are in -127..127, or all 0 when the scale is 0 |
| `Quantization.QuantizedSurvives` | src/core/quant.rs:50-104 | every quantized vector survives serialization |
| `Values.OrderOfType` | src/core/value.rs:333-361 | the values of a column of one orderable type, NULLs included, are totally ordered, NULL first, and compare equal only when equal |
| `Values.NumbersCompare` | src/core/value.rs:333-361 | integers and floats compare as numbers, whatever their types, and false before true |
| `Values.TextsCompare` | src/core/value.rs:333-361 | texts compare as in a dictionary |
| `Values.AtMostTransitive` | src/core/value.rs:333-361 | that order is transitive |
| `Values.ComparisonIsMonotone` | src/core/value.rs:333-361 | against any literal, of any type, a larger column value never compares lower |
| `Values.TextOrder` | src/core/value.rs:333-361 | text comparison is antisymmetric and equal only on equal text |
| `ZoneMaps.StatsDescribe` | src/core/dataset_legacy.rs:26-79 | in an ordered column the statistics are the null count, the least and the greatest value |
| `ZoneMaps.UnorderedStats` | src/core/dataset_legacy.rs:26-79 | in an unordered column both bounds are the first non-null value |
| `ZoneMaps.StatsIgnoreOrder` | src/core/dataset_legacy.rs:26-79 | in an ordered column the statistics do not depend on row order |
| `ZoneMaps.MergeTwice` | src/core/dataset_legacy.rs:37-62 | merging a value again changes nothing but the null count |
| `Partitions.AddedColumn` | src/core/dataset_legacy.rs:340-405 | one column after one added row is right unless a NULL is counted once per field of a repeated name |
| `Partitions.AddRowAgrees` | src/core/dataset_legacy.rs:340-405 | statistics kept row by row equal a recomputation |
| `Partitions.AddRowAgreesIff` | src/core/dataset_legacy.rs:340-405 | they do so for all rows of a schema if and only if no repeated field name is nullable |
| `Partitions.PartitionsTile` | src/core/dataset_legacy.rs:265-284 | partitions tile the rows: each row in exactly one, none empty, none above the batch size |
| `Partitions.ZoneMapBounds` | src/core/dataset_legacy.rs:265-284 | every non-null value of an ordered column lies within its partition's bounds |
| `Partitions.StatsUpToAll` | src/core/dataset_legacy.rs:132-146 | filling the map field by field gives one summary per column name |
| `Partitions.FreshStatsAreStats` | src/core/dataset_legacy.rs:340-405 | the statistics a new partition starts with are those of its one row |
| `Partitions.AddToPartitionsAgrees` | src/core/dataset_legacy.rs:340-405 | growing or opening the last partition equals rebuilding all of them |
| `Partitions.KeepWhereIs` | src/core/dataset_legacy.rs:417-424 | filtering keeps exactly the rows that satisfy the predicate, in order |
| `SortOrder.SortOrders` | src/core/dataset_legacy.rs:525-542 | sorting by an ordered column puts every earlier cell at most at every later one, or at least for a descending sort |
| `SortOrder.SortSorts` | src/core/dataset_legacy.rs:525-542 | in a column of any type no row comes after one that it precedes in the order compared by |
| `SortOrder.SortIsStable` | src/core/dataset_legacy.rs:525-542 | the rows with any one cell value keep their order |
| `SortReuse.SortPermutes` | src/core/dataset_legacy.rs:525-542 | sorting rows permutes them |
| `SortReuse.SortKeepsStats` | src/core/dataset_legacy.rs:544-560 | for safe sorts the reused statistics equal recomputed ones |
| `SortReuse.SortKeepsStatsIff` | src/core/dataset_legacy.rs:544-560 | they do so for all tables of a schema if and only if no unordered column other than the sort column exists, or the sort moves nothing |
| `SortReuse.UnsafeSortChanges` | src/core/dataset_legacy.rs:544-560 | for every unsafe sort two rows whose reused statistics are wrong |
| `Datasets.Dataset.constructor` | src/core/dataset_legacy.rs:169-183 | a new table is empty with matching statistics |
| `Datasets.Dataset.ComputeStats` | src/core/dataset_legacy.rs:64-79 | the loop over one column gives its statistics |
| `Datasets.Dataset.SummarizeColumns` | src/core/dataset_legacy.rs:265-284 | one summary per column name over a stretch of rows |
| `Datasets.Dataset.UpdateStats` | src/core/dataset_legacy.rs:132-146 | count and statistics equal a recomputation |
| `Datasets.Dataset.RebuildPartitions` | src/core/dataset_legacy.rs:265-284 | the chunk loop gives the specified partitions |
| `Datasets.Dataset.RefreshStats` | src/core/dataset_legacy.rs:259-263 | all derived fields match the rows |
| `Datasets.Dataset.AddRow` | src/core/dataset_legacy.rs:340-405 | refused, and unchanged, for a foreign schema object; otherwise the row is appended and derived fields that matched before still match |
| `Datasets.Dataset.ExtendPartitions` | src/core/dataset_legacy.rs:365-405 | the last partition grows or the next one opens |
| `Datasets.Dataset.MergeRow` | src/core/dataset_legacy.rs:340-365 | every field of the row is merged into its column |
| `Datasets.Dataset.FilterBatched` | src/core/dataset_legacy.rs:938-975 | batch by batch the same rows in the same order as one pass, with fresh derived fields |
| `Datasets.Dataset.SortBy` | src/core/dataset_legacy.rs:525-560 | stable sort by the column, refused exactly for an unknown one; derived fields match if they did and the sort is safe |
| `Datasets.WithRows` | src/core/dataset_legacy.rs:185-235 | accepted exactly when every row has the schema's fields; then those rows with fresh derived fields |
| `Pruning.CompareFlips` | src/query/planner.rs:630-640 | swapping operands swaps the comparison |
| `Pruning.KeepsIs` | src/query/planner.rs:690-786 | a row is kept exactly when its cell is not NULL and stands to the literals, none NULL, as the predicate asks: in either operand order and between two bounds |
| `Pruning.RuledOutWhen` | src/query/planner.rs:642-668 | bounds are ruled out exactly when the least value (for < and <=) or the greatest (for > and >=) does not itself satisfy the comparison |
| `Pruning.PrunesWhen` | src/query/planner.rs:495-536 | the scan is pruned exactly when there are several partitions and one is ruled out |
| `Pruning.KeptMeetsConstraints` | src/query/planner.rs:547-585 | a row the filter keeps satisfies every extracted constraint, flipped and BETWEEN forms included |
| `Pruning.BoundsCouldMatch` | src/query/planner.rs:642-668 | bounds that enclose a satisfying value are never ruled out |
| `Pruning.KeptSurvives` | src/query/planner.rs:495-536 | a partition with a kept row survives pruning |
| `Pruning.OnePartition` | src/query/planner.rs:495-536 | a skipped partition contributes nothing to the answer |
| `Pruning.PrunedScan` | src/query/physical.rs:95-109 | the scan loop, clamping each range to the table, gives the rows of the ranges |
| `Pruning.PruningKeepsAnswer` | src/query/planner.rs:495-545 | the filtered pruned scan equals the filtered full scan: same rows, same order |
| `ColumnFiles.LeRoundTrip` | src/core/colbuf.rs:232-262 | little-endian numbers that fit read back |
| `ColumnFiles.ContentFits` | src/core/colbuf.rs:165-190 | a cell's content has the width of its kind and fits the stride |
| `ColumnFiles.AppendNumbers` | src/core/colbuf.rs:216-227 | numbers are appended in order |
| `ColumnFiles.AppendPayload` | src/core/colbuf.rs:232-250 | one row padded to the stride, refused exactly for a cell of another kind or length |
| `ColumnFiles.AppendScales` | src/core/colbuf.rs:207-216 | the scale section of an I8 column, padded |
| `ColumnFiles.AppendRows` | src/core/colbuf.rs:228-250 | the loop succeeds exactly when every cell fits |
| `ColumnFiles.WriteColumn` | src/core/colbuf.rs:190-269 | an error exactly when some cell does not belong; otherwise the specified bytes |
| `ColumnLayout.FitsWhen` | src/core/colbuf.rs:217-247 | a cell belongs in a column if it is NULL, or of the kind and length of the column |
| `ColumnLayout.WrittenHeader` | src/core/colbuf.rs:232-257 | the 80 header bytes, one by one: letters, kind 1, 2 or 3, row count, dimension and stride in little-endian, digest of the rest |
| `ColumnLayout.WrittenRow` | src/core/colbuf.rs:190-231 | where the mark, the scale and the cell of each row lie, and which bytes they are, zeros up to the next row included |
| `ColumnFiles.OpenIsOpened` | src/core/colbuf.rs:287-348 | an accepted file whose sizes do not wrap has the length of the layout |
| `ColumnFiles.ReadsInside` | src/core/colbuf.rs:287-393 | when neither the stride nor the section offsets wrap, every read of any row of an accepted file stays inside it, at addresses divisible by 8 |
| `ColumnOffsets.RowsStayIff` | src/core/colbuf.rs:163-393 | sizes and offsets in wrapping 64-bit arithmetic: what `value` reads of the rows of a file of the accepted length lies inside it if and only if it has no rows, or neither its stride nor its payload offset wraps, or its marks lie inside and say NULL (but for rows of scales without codes that lie inside) |
| `ColumnOffsets.OpenedRowsStayIff` | src/core/colbuf.rs:287-393 | the same for every file of bytes that opens |
| `ColumnOffsets.SmallFileStaysIff` | src/core/colbuf.rs:287-393 | below 2^61 bytes: if and only if the marks lie inside and, should the stride wrap, all say NULL |
| `ColumnOffsets.HeaderStaysIff` | src/core/colbuf.rs:287-393 | all files that open with a given kind, row count and dimension are read inside if and only if there is no row or nothing wraps |
| `ColumnOffsets.WrappedFileIsAccepted` | src/core/colbuf.rs:287-348 | an 88-byte half-precision file of one row of 2^63 elements, whose stride wraps to 0, opens whatever its mark, and is read inside if and only if the mark says NULL |
| `ColumnFiles.WrittenIsAccepted` | src/core/colbuf.rs:190-348 | a written file whose sizes fit 64 bits is accepted with the kind, count and dimension it was written with |
| `ColumnFiles.WrittenReadsBack` | src/core/colbuf.rs:190-393 | every cell reads back as it was, NULLs and I8 scales included |
| `ColumnFiles.TruncatedOrExtendedIsRefused` | src/core/colbuf.rs:287-348 | no proper prefix and no proper extension of an accepted file is accepted |
| `ColumnBits.HoldsIffLastWordFits` | src/core/bitvec.rs:33-40 | words represent a bit vector of a length if and only if the last one does not reach past it |
| `ColumnBits.ReadHoldsIff` | src/core/colbuf.rs:364-373 | a value of an accepted bit-vector column has clear bits past its end exactly then: the words are taken as they are |
| `ColumnBits.WrittenHolds` | src/core/colbuf.rs:190-393 | a proper bit vector that was written reads back as one |
| `ColumnBits.LongBitsExample` | src/core/colbuf.rs:287-393 | a file that opens and hands out a vector of one bit whose word has eight |

## Left out

- RecordTextParses: the JSON of a record is a one-line text of braces, number and escaped string with the same cutting behaviour; timestamps, fingerprints and the removal of a carriage return before a newline are not modelled.
- ReadRecords: a missing log file, which reads as an empty one, and the removal of a carriage return before a newline are not modelled.
- SafeRunsAreDurable: a crash is a death of the process; loss of unsynchronised pages by the operating system, partial removal of a directory and external-file fingerprints are not modelled.
- TakeCheckpoint: automatic checkpoints (after a SAVE, or when the log outgrows its limit) are the same step taken by the caller; writing the contents of `checkpoint.tmp/` is one step.
- Restart: opening the log lazily on the first append is folded into recovery; a repair or an opening that fails, and the comparison of fingerprints, are not modelled.
- CosineGreedy: the weight of a peak is a given number and the square root a parameter, so neither rounding nor the refusal of non-finite powers is modelled.
- EntropySimilarity: the logarithms and the power function are parameters; the peak named in the error for a negative intensity is not modelled.
- CleaningTwice: intensities are exact, and the final narrowing to `f32` is not modelled; of the power only that it keeps positive intensities positive.
- ToLogicalVec: `f32` is exact; `dot_1d` and `stack`, which read the raw buffer, are not modelled; of the copying arms of the multi-dimensional slice only their reads.
- MatmulBuiltin: the `faer` product and the parallel row loop are not modelled; products are exact.
- ElementwiseBinary: the infallible variant is the same path with an operation that never refuses; parallel chunks are sequential; the operand traversals of the scalar arms share one method.
- Multiply: ids, timestamps and metadata of results are not modelled.
- ClampNeverActs: numbers are exact, so overflow of a quotient and the refusal of non-finite elements are not modelled.
- ReprRestoresIff: only the I8 encoding; half-precision conversion is left out.
- FromBitString: strings are sequences of characters; the byte positions named in its error messages are not modelled.
- WriteColumn: renames, directories and their errors are not modelled, and the bytes are computed without wrapping, so that a written file reads back is stated for sizes that fit 64 bits.
- WrappedFileIsAccepted: the memory map and what a read past its end gives are not modelled.
- ComparisonIsMonotone: numbers are exact, so an integer compared with a 32-bit float is not rounded first, and NaN does not occur.
- AddRow: indexes on columns, and the error path through them, are not modelled; nor is the assignment of `rows` from outside.
- SortBy: indexes, lazy columns and metadata other than statistics are not modelled.
- FilterBatched: the parallel path is sequential.
- PruningKeepsAnswer: lazy columns evaluated by the scan, and the choice among other access paths, are not modelled.
- EvalEager: index, slice, reshape and the linear algebra operations are one kind of call, which takes the kind of its first operand; provenance records and ids that a refused call uses up are not modelled.
- BindResource: the branches for datasets and dataset variables are not modelled.
- InsertNamedWithKind: fresh ids are consecutive numbers, and the refusal of data that does not match its shape happens before.
- RecordProvenance: the row-count parameter added to a record and its persistence as a line of `provenance.jsonl` are not modelled.
- PruneBefore: the clock is an integer passed in with the cutoff.
- The mean, deviation, variance, median, quantile, covariance and normalization kernels, which are folds over the same logical values.
- `take`, `skip`, `select`, `map` and computed columns of a dataset, which only rebuild what is already proved for other operations.
- The parser, executor, HNSW and IVF indexes, connectors, HTTP server and clients.
