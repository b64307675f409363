# Verified model of PFPSanitizer

PFPSanitizer checks the floating-point arithmetic of a program in parallel with the program itself.  An
instrumented program (the producer) pushes what its shadow cannot recompute into buffers; worker threads run
cloned "shadow slices" (the consumers) that read those values back and repeat every floating-point operation
in high precision.  This project models, and proves properties of,

* **the decoupling**: the pass as three interpreters over a small IR (`Shadow`), what its metadata are, against a
  fourth that executes the program in high precision (`Ideal`), the queue protocol between the producer and any
  number of workers as a state machine (`Protocol`, and `Mixing` for its limits), and pass and protocol together
  (`EndToEnd`);
* **the runtime metadata**: the lock and key stack (`Keys`), the direct-mapped shadow memory as a class
  (`ShadowSlots`, `ShadowRuntime`), the walk over the provenance graph (`Provenance`), the cancellation check
  (`Cancellation`) and the distance in units in the last place (`Ulp`);
* **the sparse-matrix assembly of the AMG benchmark**: row buffers and setters (`SparseRows`, `AuxMatrix`),
  parallel assembly (`Blocks`, `Assembly`), sorting and column compression (`Sorting`, `ColumnMap`), reading
  values back (`MatrixValues`, `Histories`, `MatrixHistory`), the stash of off-processor rows and its way to the owners
  (`OffProcStashes`, `Messages`, `Contacts`, `Parts`, `Packing`, `Unpacking`, `Ranks`, `Exchange`), all
  processors together (`MatrixRanks`, `MatrixSent`, `MatrixExchange`), and the vector exchange (`Partitions`,
  `VectorParts`, `VectorExchange`, `VectorHistory`, `VectorConservation`);
* **the in-place Cholesky kernel** of the case study (`Cholesky`).

Code that works step by step on arrays and objects is imperative here too: classes whose fields are those of
the source (`ShadowRuntime.Runtime`, `Provenance.DepthWalk`, `SparseRows.RowBuffer`, `AuxMatrix.RowMatrix`,
`Assembly.CsrPart`, `OffProcStashes.OffProcStash`, `Unpacking.Inbox`, `VectorParts.VectorPart`) and methods on
arrays, each specified by a function or predicate about which the lemmas are proved.  Threads are modelled by
interleaving: at every turn some thread does its next row, or some worker or the producer its next atomic
queue operation.  `dafny verify dfyconfig.toml` checks everything.

Some properties one might expect do not hold of the code.  Each is stated with the exact condition under which it
does: `StreamsExact` (and the run of `StreamsCanMix`), `ReadsFold` and `RowUpdateDistinct` (and the
inputs of `RepeatedColumnIsLost` and `RepeatedDiagonalIsRead`), `QueryAligned`, `SlotExact` (and `AliasOverwrites`),
`SilenceExact` (and the input of `WrongSignIsMissed`), `FitsNext` and `EmptyRowsFit`, `CancelExact` (and the input of
`LaterRowDoesNot`), `LostExactly`, and `ComputedIsOriginal` (the results of uninstrumented functions are missed).
In `CancelExact` the code departs from its own documentation.

## Model

| member | source | states |
|---|---|---|
| `Shadow.StepDecoupled` | llvm-pass/FPSan/FPSanitizer.cpp:3684-3735 | for every instruction and terminator of the IR: the clone, given what the original pushed in one step, reads all of it and nothing more, computes the metadata the lockstep shadow operation computes from the original's own operands, and both stay at the same place in the program |
| `Shadow.CallDecoupled` | llvm-pass/FPSan/FPSanitizer.cpp:1278-1368 | direct and indirect calls: the clone enters the clone of the callee (or skips a function that has none) with the metadata of the arguments, whenever the addresses the original has entered are in the clone map |
| `Shadow.TermDecoupled` | llvm-pass/FPSan/FPSanitizer.cpp:3988-4034 | branches, switches, jumps and returns: the pushed condition leads the clone to the same block, and a flipped high-precision comparison is counted but not followed |
| `Shadow.ControlMoves` | llvm-pass/FPSan/FPSanitizer.cpp:3988-4034 | where a step leads, said on the program alone: behind the instruction, to the block the terminator names for the integer it tests (a switch's other block for values not in its table), to the start of the function entered, or back to the caller; the original and, given what it pushed, the clone |
| `Shadow.StepWaits` | llvm-pass/FPSan/FPSanitizer.cpp:3278-3333 | given any less than the step pushed, the clone waits |
| `Shadow.DecouplingTheorem` | llvm-pass/FPSan/FPSanitizer.cpp:3854-3913 | for every program, start and number of steps: fed with everything the original pushed, the clone consumes exactly that and ends with the frames, temporaries, shadow memory and flip count of the lockstep run |
| `Shadow.ReadsArePushes` | llvm-pass/FPSan/FPSanitizer.cpp:4273-4394 | the metadata pointers cloneFunction keeps, less the one for a float result, are as many as the float arguments that are pushed, whatever the kinds of the parameters |
| `Shadow.PushedInOrder` | llvm-pass/FPSan/FPSanitizer.cpp:3154-3199 | each float argument is pushed, directly behind the float arguments before it |
| `Shadow.SliceArgsRead` | llvm-pass/FPSan/FPSanitizer.cpp:4159-4272 | the clone of a slice with parameters of any kinds starts on exactly the arguments the original pushes (lines 3154-3199): it waits for all of them and leaves what follows in the buffer |
| `Shadow.SliceDecoupled` | llvm-pass/FPSan/FPSanitizer.cpp:4159-4272 | the shadow of any slice, whatever its parameters, returns on its own stream, with the lockstep metadata, having read all of it |
| `Shadow.AsksExactly` | llvm-pass/FPSan/FPSanitizer.cpp:3310-3333 | the shadow wants another value on every proper prefix of its stream and none on the whole stream |
| `Ideal.ComputedIsOriginal` | runtime/handleReal.cpp:1167-1207 | along every lockstep run of any program the computed field of every temporary, in every frame, is the original's own float after every step if and only if no step is stale: a call of an uninstrumented function, whose result the clone is not told, that changes the temporary, or, without SELECTIVE, a load of a float that is not the one last stored in the slot |
| `Ideal.StepAgrees` | runtime/handleReal.cpp:1167-1207 | the same for a single step |
| `Ideal.StepMeans` | llvm-pass/FPSan/FPSanitizer.cpp:3684-3735 | one step of the shadow next to one step of an independent interpreter that does the original's arithmetic in high precision: arithmetic applies the high-precision operation to the operands' val fields, loads give back what was stored, arguments and results are passed, comparisons that go the other way are counted; the metadata stay that execution's exactly if what comes from outside reaches the clone |
| `Ideal.MetadataAreIdeal` | llvm-pass/FPSan/FPSanitizer.cpp:3854-3913 | along every lockstep run on addresses that share no slots: after every step val and opcode of every temporary in every frame, the shadow memory and the flip count are those of the high-precision execution, and the computed fields the original's floats, if and only if every step is followed, a condition on the program's own execution |
| `Ideal.SliceIsIdeal` | llvm-pass/FPSan/FPSanitizer.cpp:4159-4272 | from the buffers: the clone of a slice, fed with what the slice pushed, ends with the flip count and the shadow memory of a high-precision execution of the slice |
| `Ideal.WindowApart` | runtime/handleReal.cpp:771-776 | addresses of different words within a window share no slots, as MetadataAreIdeal asks |
| `Protocol.OwnershipTheorem` | runtime/handleReal.cpp:334-420 | for any number of workers and every interleaving: each buffer index is in exactly one of the queues or hands, no buffer is held twice, and the two bounded queues never hold more than NUM_QUEUES, so that no push waits |
| `Protocol.OwnedStep` | runtime/handleReal.cpp:270-303 | every single action moves at most one index from one place to one other: the number of places of each index is unchanged |
| `Protocol.StreamTheorem` | llvm-pass/FPSan/FPSanitizer.cpp:2442-2512 | one worker, or any number of workers and at most one slice longer than a buffer: under every interleaving what a worker has read is a prefix of what was pushed for its slice, and a finished slice has read exactly its values, for every slice length including multiples of the buffer size |
| `Protocol.AwaitingMeansLate` | runtime/handleReal.cpp:399-420 | a worker that waits on an empty full_list waits for the very slice the producer is in the middle of |
| `Protocol.NoDeadlock` | runtime/handleReal.cpp:270-303 | in the same two cases every reachable state before the end has an enabled action, and the lemma returns one: an action of a worker wherever the program waits on an empty empty_list |
| `Protocol.WaitingForWorkers` | runtime/handleReal.cpp:334-342 | while the program waits for a buffer, in the middle of a slice, between slices or after the last one, some worker can act |
| `Protocol.ShutdownTheorem` | runtime/handleReal.cpp:533-540 | every run is at most as long as the measure of its first state; where no action is possible any more every worker has been joined and every slice has been run on exactly its values; and wherever the program waits for a buffer a worker can act |
| `Mixing.StreamsExact` | runtime/handleReal.cpp:399-420 | the exact limit of the above, for all configurations: waiting workers find their own next buffer at the front of full_list in every run if and only if there is one worker or at most one slice is longer than a buffer |
| `Mixing.StreamsCanMix` | runtime/handleReal.cpp:399-420 | with two workers and two slices longer than a buffer there is a run in which a worker reads, after its slice's first buffer, a value of another slice |
| `EndToEnd.DecoupledExecutionTheorem` | runtime/handleReal.cpp:372-420 | transformation and protocol together: every run is bounded, and at its end the shadow of every slice, run on what its worker read from the buffers, has the metadata of the lockstep run |
| `Keys.KeyHistory` | runtime/handleReal.cpp:1671-1684 | over any history of function entries and exits after a capture: the captured key is still in the map at its lock exactly while the activation is alive; once it has returned, the slot is cleared or has a younger key |
| `Keys.KeysExact` | runtime/handleReal.cpp:513-517 | a (lock, key) pair taken at the top of the key stack matches the map if and only if the activation that took it has not returned |
| `ShadowSlots.SlotInjective` | runtime/handleReal.cpp:771-776 | within a window of HASH_TABLE_ENTRIES words two addresses share a slot if and only if they share the word |
| `ShadowRuntime.WindowExact` | runtime/handleReal.cpp:928-954 | as long as all word addresses lie in one window, each load after any run of stores sees what an unbounded address map holds |
| `ShadowRuntime.SlotExact` | runtime/handleReal.cpp:771-776 | over any run of stores at any addresses: a load sees what an unbounded map holds unless another word of its slot has been stored to since the last store to its word, and only then if every store has an entry of its own |
| `ShadowRuntime.AliasOverwrites` | runtime/handleReal.h:68 | outside a window it fails: a store one table further on takes over the slot of the first address |
| `ShadowRuntime.Runtime.FuncInit` | runtime/handleReal.cpp:1671-1677 | pushes a fresh key; every entry that was safe to follow stays so |
| `ShadowRuntime.Runtime.FuncExit` | runtime/handleReal.cpp:1679-1684 | pops the key and the frame's temporaries; no entry becomes unsafe, because entries that point into the frame no longer match |
| `ShadowRuntime.Runtime.Store` | runtime/handleReal.cpp:928-954 | the store is logged with value, computed value and opcode of the temporary, its address, and the storing activation's lock and key; its slot holds that entry and no other slot changes; the metadata of the table change as in the shadow semantics |
| `ShadowRuntime.Runtime.StoreConst` | runtime/handleReal.cpp:848-880 | a constant is logged with itself as both values and no temporary; its slot holds that entry and no other slot changes |
| `ShadowRuntime.Runtime.Load` | runtime/handleReal.cpp:1012-1067 | over any run of stores, field by field: val, computed and opcode are exactly those of the last store to the slot, unless SELECTIVE is compiled in and its computed value is not the loaded one; then, and for a slot never written, they are the loaded value as a constant; the last store to the word is the last to its slot if no other word of the slot was stored to since, or all stores lie in one window; tmp_ptr is followed only when lock and key match, when the temporary it points to exists, and gives its trace, without a new timestamp |
| `Provenance.DepthWalk.GetDepth` | runtime/handleReal.cpp:1634-1668 | the walk ends on every graph, cyclic ones included, starting from a list that may be dirty, and the depth returned is exactly the number of complete levels before the first one that is empty or has a null entry or one whose keys do not match; with matching keys it is the length of the longest path of operands |
| `Provenance.DepthIsLongestPath` | runtime/handleReal.cpp:1634-1668 | from an empty list and with matching keys the result is the number of nodes on a longest path, said on the records themselves: the next node is lhs or rhs of the one before and has a smaller timestamp; and it is at most the timestamp plus one |
| `Provenance.KidsAre` | runtime/handleReal.cpp:1651-1660 | the operands the walk goes on to are exactly those named by lhs or rhs that have a smaller timestamp |
| `Provenance.LevelDown` | runtime/handleReal.cpp:1639-1665 | processing one level lowers the height of the work list by exactly one |
| `Provenance.LevelLighter` | runtime/handleReal.cpp:1639-1665 | processing one level lowers the weight of the work list by the number of its entries: the measure that makes the walk end |
| `Provenance.PathsAreShort` | runtime/handleReal.cpp:1651-1660 | no timestamp-decreasing path of operands is longer than the height |
| `Provenance.LongestPath` | runtime/handleReal.cpp:1651-1660 | some timestamp-decreasing path has the length of the height |
| `Provenance.HeightBound` | runtime/handleReal.cpp:1651-1660 | the height is at most the timestamp plus one |
| `Cancellation.NoAlarmBoundsError` | runtime/handleReal.cpp:1226-1317 | no alarm on an effective subtraction in which bits were cancelled, or of operands whose real values have their signs: the exact difference and the difference of the computed operands are less than 2^exp(res) and so less than 2|res| apart |
| `Cancellation.WrongSignIsMissed` | runtime/handleReal.cpp:1298-1317 | an operand with the wrong sign is not seen: a run without alarm whose error is not bounded |
| `Cancellation.SignDecides` | runtime/handleReal.cpp:1226-1250 | for a value with the exponent of its computed operand, the difference stays below 2^exp exactly if the signs agree |
| `Cancellation.SilenceExact` | runtime/handleReal.cpp:1226-1317 | exactly when the check can be relied on, from the computed values alone: its silence bounds the error for all real operands if and only if m_get_cancelled_bits is positive |
| `Cancellation.ExactBitsAre` | runtime/handleReal.cpp:1226-1250 | an operand has at least k exact bits, k > 0, if and only if k is at most the precision and it is exact or has the sign and exponent of its real value and lies less than 2^(exp - k) from it; one of the other sign with the same exponent counts as right in one bit |
| `Cancellation.BadnessIs` | runtime/handleReal.cpp:1276-1317 | the badness for every outcome: with n cancelled bits it is at most b if and only if b exceeds n or both operands are right in n + 1 - b bits; for b = 0, exactly when no alarm is raised |
| `Cancellation.ExactOperands` | runtime/handleReal.cpp:1226-1317 | exact operands raise no alarm if and only if fewer bits are cancelled than the precision has |
| `Cancellation.SpecialCases` | runtime/handleReal.cpp:1298-1305 | a NaN operand gives 0, and a zero result with an error 1 |
| `Ulp.RankEmbeds` | runtime/handleReal.cpp:1686-1703 | the sign-magnitude remapping orders the non-NaN binary64 encodings exactly as their values (IEEE 754-2019, section 3.4), both zeros at one place |
| `Ulp.RankOnto` | runtime/handleReal.cpp:1686-1703 | every place between those of the infinities belongs to some double: the rank counts doubles without gaps |
| `Ulp.UlpdIsDistance` | runtime/handleReal.cpp:1686-1703 | the wrapped 64-bit difference is the true distance of the ranks |
| `Ulp.UlpdMetric` | runtime/handleReal.cpp:1686-1703 | on non-NaN doubles the distance is zero only for equal values, symmetric, satisfies the triangle inequality, and is additive along the order |
| `Ulp.UlpdNaN` | runtime/handleReal.cpp:1692-1695 | a NaN operand gives the error code, which is larger than every distance |
| `Cholesky.KernelCholesky` | case_study/cholesky/cholesky.c:123-146 | for every n: if the lower triangle is that of L times its transpose, the kernel leaves exactly L there and the strict upper triangle as it was, for any square root that is exact on squares |
| `Cholesky.OffDiagonal` | case_study/cholesky/cholesky.c:127-136 | entry (i, j) left of the diagonal becomes L[i][j], with nothing else changed |
| `Cholesky.FactorUnique` | case_study/cholesky/cholesky.c:123-146 | a factor with positive diagonal is determined by its product with its transpose, so that L is the only result possible |
| `SparseRows.RowBuffer.constructor` | performance/bench/AMG/IJ_mv/aux_parcsr_matrix.c:119-165 | an empty row with the space asked for |
| `SparseRows.RowBuffer.Update` | performance/bench/AMG/IJ_mv/IJMatrix_parcsr.c:850-926 | one row update on the row buffer, with the temporary arrays and the growing of the row: the contents become RowUpdate of the old contents, for set and for add |
| `SparseRows.RowUpdateVals` | performance/bench/AMG/IJ_mv/IJMatrix_parcsr.c:850-926 | the values a row holds for a column after any update: the first one it had takes in all that the update gives, in order; a column it lacked is appended as often as the update names it |
| `SparseRows.RowUpdateAt` | performance/bench/AMG/IJ_mv/IJMatrix_parcsr.c:850-926 | after any update a look-up finds, for a column the row had, exactly the in-order effect of the update's entries, and otherwise the first of them |
| `SparseRows.RowUpdateDistinct` | performance/bench/AMG/IJ_mv/IJMatrix_parcsr.c:872-897 | a row without repeated columns stays one if and only if the update does not repeat a column that is new to the row |
| `AuxMatrix.RowMatrix.SetValues` | performance/bench/AMG/IJ_mv/IJMatrix_parcsr.c:834-926 | a whole Set or AddTo call: the matrix becomes the in-order application of the row updates of the call; rows of other processors leave it alone |
| `AuxMatrix.RowMatrix.SetValuesOMP` | performance/bench/AMG/IJ_mv/IJMatrix_parcsr.c:3247-3378 | with pairwise distinct rows (IJ_mv/HYPRE_IJ_mv.h:116-121), any number of threads and any interleaving of their rows the result is that of the sequential call |
| `AuxMatrix.Offsets` | performance/bench/AMG/IJ_mv/IJMatrix_parcsr.c:3281-3298 | each thread starts reading at the sum of ncols over all earlier rows |
| `AuxMatrix.AppliedUnique` | performance/bench/AMG/IJ_mv/IJMatrix_parcsr.c:3299-3378 | two matrices to which the same set of distinct rows has been applied are equal: the order of the rows does not matter |
| `Blocks.Block` | performance/bench/AMG/IJ_mv/IJMatrix_parcsr.c:3267-3279 | the quotient-and-remainder formula for a thread's first and last row agrees with laying the blocks out one after the other |
| `Blocks.ThreadBlocks` | performance/bench/AMG/IJ_mv/IJMatrix_parcsr.c:2678-2690 | the blocks of all threads lie one after the other and cover all rows |
| `Blocks.OneBlock` | performance/bench/AMG/IJ_mv/IJMatrix_parcsr.c:2678-2690 | no row is in two blocks |
| `Assembly.CountRow` | performance/bench/AMG/IJ_mv/IJMatrix_parcsr.c:2694-2709 | the first loop over a row finds the position of its diagonal entry and the sizes of its two parts |
| `Assembly.RunningTotals` | performance/bench/AMG/IJ_mv/IJMatrix_parcsr.c:2715-2727 | thread 0 turns the counts into running totals |
| `Assembly.FillStarts` | performance/bench/AMG/IJ_mv/IJMatrix_parcsr.c:2747-2756 | each thread starts to fill behind all rows of earlier blocks |
| `Assembly.FillRow` | performance/bench/AMG/IJ_mv/IJMatrix_parcsr.c:2763-2781 | the second loop writes exactly the diagonal entry first, then the other owned entries in order, and the rest in order into offd; no other cell is written |
| `Assembly.DiagRowHas` | performance/bench/AMG/IJ_mv/IJMatrix_parcsr.c:2656-2797 | diag gets each entry of the row with a column from col_0 to col_n, both included, as often as the row has it, and nothing else |
| `Assembly.OffdRowHas` | performance/bench/AMG/IJ_mv/IJMatrix_parcsr.c:2656-2797 | offd gets each entry with any other column, as often as the row has it, and nothing else |
| `Assembly.AssembleRows` | performance/bench/AMG/IJ_mv/IJMatrix_parcsr.c:2656-2797 | for every number of threads and every interleaving of their rows both parts are the sequential CSR: row pointers are the running totals and the cells are the rows one after the other |
| `Assembly.PlacedNext` | performance/bench/AMG/IJ_mv/IJMatrix_parcsr.c:2757-2781 | a row written by one thread leaves every row that is already in place as it is |
| `Assembly.PlacedIsCsr` | performance/bench/AMG/IJ_mv/IJMatrix_parcsr.c:2656-2797 | when every row is in place the arrays are the sequential CSR |
| `Sorting.Quicksort` | performance/bench/AMG/utilities/hypre_qsort.c:169-240 | hypre_qsort0/2i/3i: the stretch is sorted by key, is a rearrangement of what it was, and nothing outside it changes |
| `Sorting.RearrangedMultiset` | performance/bench/AMG/utilities/hypre_qsort.c:169-240 | a rearrangement, in this sense, of a whole sequence is a permutation of it |
| `ColumnMap.Unique` | performance/bench/AMG/IJ_mv/IJMatrix_parcsr.c:2840-2845 | removing repetitions from a sorted list in place gives the strictly increasing list of the columns there were |
| `ColumnMap.BinarySearch` | performance/bench/AMG/utilities/binsearch.c:28-53 | the position of the value in an increasing list, or -1 if and only if it is not there |
| `ColumnMap.Compress` | performance/bench/AMG/IJ_mv/IJMatrix_parcsr.c:2833-2859 | offd columns become positions in the increasing list of distinct columns, from which the old columns can be read off: decoding gives back exactly the old entries |
| `MatrixValues.DiagRowAt` | performance/bench/AMG/IJ_mv/IJMatrix_parcsr.c:2656-2797 | of the values a row buffer holds for an owned column the diag part gives the first, but for the row's diagonal column the last: diag_pos keeps the last position, whose entry is stored first |
| `MatrixValues.OffdRowAt` | performance/bench/AMG/IJ_mv/IJMatrix_parcsr.c:2656-2797 | of the values a row buffer holds for a column of another processor the offd part gives the first |
| `MatrixValues.GetValue` | performance/bench/AMG/IJ_mv/IJMatrix_parcsr.c:537-571 | the search in the CSR parts, with index shifts and the column map: 0.0 if the row held nothing for the column, the last value it held if the column is the row's own diagonal column, and else the first |
| `MatrixValues.GetValues` | performance/bench/AMG/IJ_mv/IJMatrix_parcsr.c:531-577 | every owned row of a query is answered so, and values beyond the answers are left alone |
| `MatrixValues.AnsweredMeans` | performance/bench/AMG/IJ_mv/IJMatrix_parcsr.c:531-577 | what an answered query holds at each of its places: 0.0, or the first or on the diagonal the last of the values the row held |
| `MatrixValues.QueryAligned` | performance/bench/AMG/IJ_mv/IJMatrix_parcsr.c:531-577 | the answers line up with the columns asked for if and only if no unowned row with columns stands before an owned one that has columns: the program does not step over the columns of unowned rows |
| `Histories.HistoryTheorem` | performance/bench/AMG/IJ_mv/IJMatrix_parcsr.c:850-926 | over any sequence of row updates: a row that repeats no column stays so if and only if no update names a column twice that the row lacks at that moment, and then each entry is the in-order fold of the updates to it |
| `Histories.HistoryValues` | performance/bench/AMG/IJ_mv/IJMatrix_parcsr.c:850-926 | the values a row buffer holds for a column after any sequence of row updates, whatever they repeat |
| `Histories.ReadsFold` | performance/bench/AMG/IJ_mv/IJMatrix_parcsr.c:850-926 | exactly when the value read after assembly is the in-order fold of the updates, for all values they may give: the update that creates the entry names the column once, or a later one sets it, or, on the diagonal, there is no later one and it sets |
| `Histories.ReadsSum` | performance/bench/AMG/IJ_mv/IJMatrix_parcsr.c:850-926 | and the fold in plain terms: where an entry is read exactly, it is the last value that was set, if any, plus the sum of all that has been added since |
| `MatrixHistory.CallIsChanges` | performance/bench/AMG/IJ_mv/IJMatrix_parcsr.c:834-926 | a call of the setters is the sequence of its row updates |
| `MatrixHistory.SetAssembleGet` | performance/bench/AMG/IJ_mv/IJMatrix_parcsr.c:531-577 | after any calls of Set and AddTo, in any order, and assembly on any number of threads, GetValues returns for each owned entry 0.0 if no call touched it, else the first, or on the diagonal the last, of the values the calls left in the row buffer, which is their in-order fold under the exact condition of Histories.ReadsFold |
| `Histories.RepeatedColumnIsLost` | performance/bench/AMG/IJ_mv/IJMatrix_parcsr.c:872-897 | an update that names a new column twice leaves two entries, of which off the diagonal only the first is read |
| `Histories.RepeatedDiagonalIsRead` | performance/bench/AMG/IJ_mv/IJMatrix_parcsr.c:2656-2797 | on the diagonal the last is read, which for Set is the fold although the row repeats a column |
| `OffProcStashes.OffProcStash.AddRow` | performance/bench/AMG/IJ_mv/IJMatrix_parcsr.c:1519-1570 | a row of another processor, empty or not, is appended to the nested run-length stash; the arrays grow as the number of elements demands, and the row number is written within its array as long as that many rows fit |
| `OffProcStashes.GrowthLasts` | performance/bench/AMG/IJ_mv/IJMatrix_parcsr.c:1538-1556 | growing for a row of n elements makes room for it and for two more of its length, and from a full stash not for a third |
| `OffProcStashes.FitsNext` | performance/bench/AMG/IJ_mv/IJMatrix_parcsr.c:1519-1570 | whether the next row of a sequence is written within the arrays can be told before it is stashed: its elements make them grow, or the number of rows is below max_off_proc_elmts |
| `OffProcStashes.EnoughRoom` | performance/bench/AMG/IJ_mv/IJMatrix_parcsr.c:1519-1570 | up to 1000 rows always fit, and any number of rows that are not empty |
| `OffProcStashes.EmptyRowsFit` | performance/bench/AMG/IJ_mv/IJMatrix_parcsr.c:1519-1570 | rows without columns fit if and only if there are at most 1000 of them: the 1001st row number is written beyond off_proc_i |
| `OffProcStashes.Compact` | performance/bench/AMG/IJ_mv/IJMatrix_parcsr.c:2583-2625 | in place: the stash becomes the old one without cancelled entries and without the rows that have none left, order and association of row, column and value kept, both counts right, nothing overwritten before it is read |
| `OffProcStashes.CompactRow` | performance/bench/AMG/IJ_mv/IJMatrix_parcsr.c:2597-2611 | one row of the compaction moves its live entries down and counts them |
| `OffProcStashes.LiveIs` | performance/bench/AMG/IJ_mv/IJMatrix_parcsr.c:2597-2611 | what stays of a row is exactly its entries that are not cancelled, each as often as before |
| `OffProcStashes.CompactedNonEmpty` | performance/bench/AMG/IJ_mv/IJMatrix_parcsr.c:2612-2621 | no row of a compacted stash is empty |
| `OffProcStashes.OffProcStash.CancelRow` | performance/bench/AMG/IJ_mv/IJMatrix_parcsr.c:1026-1066 | setting a row of another processor: in place, every stashed entry of that row in one of the given columns is marked, no other is touched, and the count rises exactly if there was one |
| `OffProcStashes.CancelIn` | performance/bench/AMG/IJ_mv/IJMatrix_parcsr.c:1041-1058 | the two inner loops: exactly the cells of the row with one of the columns become -1 |
| `Contacts.CountContacts` | performance/bench/AMG/IJ_mv/IJMatrix_parcsr.c:2090-2120 | one pass over the rows sorted by number gives the owners in increasing order with the number of rows and elements of each |
| `Contacts.TallyIsContacts` | performance/bench/AMG/IJ_mv/IJMatrix_parcsr.c:2090-2120 | counted over the sorted rows, the numbers are those over the stash in its own order |
| `Contacts.Contact` | performance/bench/AMG/IJ_mv/IJMatrix_parcsr.c:1950-2163 | from the stash to the contact list: every owner of a stashed row once, with exactly the rows and elements the stash has for it, and the owner of every stashed row |
| `Packing.NegativeStarts` | performance/bench/AMG/IJ_mv/IJMatrix_parcsr.c:2137-2146 | starts are encoded as -storage-1; the stretches lie one after the other and fill the storage |
| `Packing.PackRow` | performance/bench/AMG/IJ_mv/IJMatrix_parcsr.c:2177-2226 | the sign of the start tells whether the number of rows goes first; exactly the cells of the row are written |
| `Packing.PackNext` | performance/bench/AMG/IJ_mv/IJMatrix_parcsr.c:2168-2227 | packing one row extends its owner's message by the row and leaves every other message as it is |
| `Packing.Pack` | performance/bench/AMG/IJ_mv/IJMatrix_parcsr.c:2137-2245 | each contact's stretch holds exactly the number of its rows and its rows in stash order; the stretches fill the buffer and the shifted ends are their starts |
| `Parts.FillingNext` | performance/bench/AMG/IJ_mv/IJMatrix_parcsr.c:2168-2227 | writing at one part's next cell lengthens that part and leaves all others as they are |
| `Parts.FullSlices` | performance/bench/AMG/IJ_mv/IJMatrix_parcsr.c:2240-2245 | moving the end positions up by one gives the start positions, when every part fills its stretch |
| `Unpacking.Inbox.FillResponse` | performance/bench/AMG/IJ_mv/IJMatrix_parcsr.c:2404-2473 | a message is appended behind the earlier ones, which stay as they are; both arrays grow when needed |
| `Unpacking.UnpackMessage` | performance/bench/AMG/IJ_mv/IJMatrix_parcsr.c:2317-2383 | decoding a message applies to the matrix exactly the rows that were encoded, in order |
| `Exchange.Argsort` | performance/bench/AMG/IJ_mv/IJMatrix_parcsr.c:2294-2302 | the order of unpacking is that of the senders' ranks |
| `Exchange.Unpack` | performance/bench/AMG/IJ_mv/IJMatrix_parcsr.c:2294-2384 | whatever the order of arrival, the matrix gets the rows the ranks stashed for it, rank after rank, each in stash order |
| `Exchange.TransportDelivers` | performance/bench/AMG/IJ_mv/IJMatrix_parcsr.c:2137-2289 | packing by all ranks and transport in any order deliver to each processor exactly what the ranks stashed for it |
| `Exchange.Receive` | performance/bench/AMG/IJ_mv/IJMatrix_parcsr.c:2137-2384 | the round trip: the receiver's matrix is the old one after adding all rows stashed for it anywhere, ordered by sender's rank and place in the stash |
| `MatrixRanks.TakeCall` | performance/bench/AMG/IJ_mv/IJMatrix_parcsr.c:834-1570 | a whole call of Set or AddTo on a matrix in row buffers: owned rows are set or added in order; of the others those to be added are appended to the stash, and for those to be set what is stashed is cancelled |
| `MatrixRanks.RunAndPack` | performance/bench/AMG/IJ_mv/IJMatrix_parcsr.c:2583-2632 | any calls of a processor, from empty rows, then assembly up to the packing: the row buffers hold the history of its calls, and the message buffer holds for every contact exactly the stashed rows it owns, without the cancelled entries if anything was cancelled |
| `MatrixSent.PacksSent` | performance/bench/AMG/IJ_mv/IJMatrix_parcsr.c:2583-2632 | what is packed does to an entry of another processor exactly what the calls left to be sent for it: all additions since the last Set that cancelled it, in order |
| `MatrixSent.CompactedEffects` | performance/bench/AMG/IJ_mv/IJMatrix_parcsr.c:2583-2625 | the compaction changes nothing about the entries that are not cancelled |
| `MatrixSent.CancelExact` | performance/bench/AMG/IJ_mv/IJMatrix_parcsr.c:1026-1066 | IJ_mv/HYPRE_IJ_mv.h:110-114 promises that setting an entry of another processor erases what is stashed for it; the program does so, whatever the stash holds, if and only if the columns of the row are the first columns of the whole call |
| `MatrixSent.LaterRowDoesNot` | performance/bench/AMG/IJ_mv/IJMatrix_parcsr.c:1041-1046 | an input: the second row of a call, set in another column than the first, leaves its stashed entry alone |
| `MatrixSent.FirstRowCancelsOwn` | performance/bench/AMG/IJ_mv/IJMatrix_parcsr.c:1041-1046 | the first row of a call that has columns is treated as promised |
| `MatrixSent.SentAsDocumented` | performance/bench/AMG/IJ_mv/IJMatrix_parcsr.c:1026-1066 | if every row a processor sets elsewhere meets that condition, what it sends is what the documentation says |
| `MatrixExchange.ReceiveAssembleGet` | performance/bench/AMG/IJ_mv/IJMatrix_parcsr.c:2294-2384 | the other half, on the receiver: unpacking, assembly on any number of threads and a query; every owned entry asked for is what the processor's own calls and then all row updates stashed for it leave there |
| `MatrixExchange.WholeIsAllCalls` | performance/bench/AMG/IJ_mv/IJMatrix_parcsr.c:2137-2384 | what has been done to an entry by then: all that its owner's own calls do to it, then all that the calls of every other processor left to be sent for it, in the order of their ranks, each exactly once and in order |
| `MatrixExchange.RunExchangeGet` | performance/bench/AMG/IJ_mv/IJMatrix_parcsr.c:2137-2384 | the whole system in one method: all processors make their calls of Set and AddTo on any rows, stash, cancel, pack and send, the owner receives in any order of arrival, assembles and answers a query with what all calls of all processors leave in its entries, 0.0 where none touched them |
| `Ranks.ListedIsGather` | performance/bench/AMG/IJ_mv/IJMatrix_parcsr.c:2294-2315 | leaving out the ranks that have nothing changes nothing |
| `Partitions.FindProc` | performance/bench/AMG/IJ_mv/IJMatrix_parcsr.c:2477-2503 | the rank whose range holds the index, and -1 if and only if no range does |
| `VectorParts.VectorPart.AddTo` | performance/bench/AMG/IJ_mv/IJVector_parcsr.c:457-587 | the values given for owned components are added to them, in order, the others go to the end of the stash, which grows when needed; a rank that owns nothing reports an error and keeps nothing |
| `VectorParts.VectorPart.SetTo` | performance/bench/AMG/IJ_mv/IJVector_parcsr.c:377-424 | the values given for owned components replace them, in order; what is stashed for the others is cancelled; a rank that owns nothing reports an error and does nothing |
| `VectorParts.NothingLost` | performance/bench/AMG/IJ_mv/IJVector_parcsr.c:539-587 | added or stashed: each component grows by exactly what is contributed to it |
| `VectorParts.VectorPart.Cancel` | performance/bench/AMG/IJ_mv/IJVector_parcsr.c:402-417 | all stashed contributions to a component are cancelled and no others, and counted |
| `VectorParts.VectorPart.Compact` | performance/bench/AMG/IJ_mv/IJVector_parcsr.c:660-685 | if anything was cancelled the stash becomes the old one without the cancelled contributions, in order |
| `VectorParts.LiveSum` | performance/bench/AMG/IJ_mv/IJVector_parcsr.c:660-685 | removing cancelled contributions changes no component's sum |
| `VectorExchange.CountOwners` | performance/bench/AMG/IJ_mv/IJVector_parcsr.c:899-906 | each contribution's owner, and how many there are for each rank |
| `VectorExchange.SortStash` | performance/bench/AMG/IJ_mv/IJVector_parcsr.c:899-1002 | the send buffer holds for each receiver exactly its contributions in stash order |
| `VectorExchange.RecvList` | performance/bench/AMG/IJ_mv/IJVector_parcsr.c:949-973 | from everybody's notices: who sends to this rank, and where each message goes |
| `VectorExchange.Transfer` | performance/bench/AMG/IJ_mv/IJVector_parcsr.c:1004-1055 | every posted receive has the length of the message posted for it; the receive buffer is the messages in the order of the senders |
| `VectorExchange.Receive` | performance/bench/AMG/IJ_mv/IJVector_parcsr.c:894-1070 | each component of the receiver grows by exactly the sum of what all ranks had stashed for it |
| `VectorHistory.Conservation` | performance/bench/AMG/IJ_mv/IJVector_parcsr.c:892-1070 | summed over all ranks, what is known about a component is what its owner holds plus all that is stashed for it anywhere |
| `VectorHistory.OwnerHoldsTotal` | performance/bench/AMG/IJ_mv/IJVector_parcsr.c:892-1070 | after the exchange the owner of a component holds the total of what all ranks knew about it: nothing is lost, duplicated or misrouted |
| `VectorHistory.CallsShare` | performance/bench/AMG/IJ_mv/IJVector_parcsr.c:313-587 | any sequence of calls of Set and AddTo on a rank leaves it with its share in a component: on the owner the in-order effect of setting and adding, elsewhere the sum of what was added since it was last set |
| `VectorHistory.RunAndSort` | performance/bench/AMG/IJ_mv/IJVector_parcsr.c:660-704 | all calls of a rank, the compaction of its stash and the sorting: the rank ends in the state its calls lead to and sends exactly what they stashed |
| `VectorHistory.ComponentTheorem` | performance/bench/AMG/IJ_mv/IJVector_parcsr.c:313-1070 | from the calls to the components: after any calls of Set and AddTo on any ranks and the exchange, each component is the sum of the shares of all ranks that own something |
| `VectorHistory.RunEverywhere` | performance/bench/AMG/IJ_mv/IJVector_parcsr.c:313-1070 | the whole system in one method: all ranks make their calls of Set and AddTo, compact, sort, send and receive, and every component of every rank is then the sum of all ranks' shares in it |
| `VectorConservation.AddOnlyIsSum` | performance/bench/AMG/IJ_mv/IJVector_parcsr.c:457-1070 | if all calls add, each component is its old value plus the sum of all values given for it on all ranks that own something |
| `VectorConservation.LostExactly` | performance/bench/AMG/IJ_mv/IJVector_parcsr.c:515-524 | plain conservation, that nothing given anywhere gets lost, holds for all values if and only if no rank that owns nothing gives any for the component |

## Left out

- Parameters: machine arithmetic, high-precision arithmetic, comparison, library functions and all non-float code are functions of the `Shadow.Machine`; the square root is a function exact on squares; the lookup of a row's owner in the assumed-partition version is a monotone function; MPI transport delivers each message once, in any order.
- Integers: addresses, indices, locks, keys and timestamps are unbounded; the 32-bit fields `lock` and `key` and the 64-bit words of `m_ulpd` are the places where width matters, and only the latter is modelled. A pushed address or switch value survives its conversion to double and back exactly, which holds in the program for values below 2^53.
- Floating point: sums in the matrix and vector code and the Cholesky kernel are over exact reals; rounding is not modelled.
- Protocol: `NUM_THREADS == 0` (slices run in the producer), and the atomicity of TBB queues and pthreads is taken for granted. Between slices the shadow memory a worker starts with is a parameter of the slice.
- Keys: the key stack is a map without the limit MAX_STACK_SIZE; `ShadowRuntime.Runtime.FuncInit` asks for room.
- Cancellation.NoAlarmBoundsError: operands (real and computed) and result are regular (finite, non-zero), as the exponent is defined only for those; infinities, zeros and NaNs are not covered.
- Shadow memory copies: `fpsan_handle_memcpy`, `fpsan_handle_memset` and the copying of metadata of returned values and of phi nodes with tracing are not modelled.
- Metadata across a buffer switch: the program indexes its metadata tables by buffer, so that a slice that changes buffers changes tables; the model gives each slice one shadow memory.
- AuxMatrix.RowMatrix.SetValues: the effect on owned rows; what happens to the stash is in `MatrixRanks.TakeCall`. The matrix is not assembled and uses row buffers; the branches for assembled matrices and for preallocated CSR arrays (`need_aux == 0`) are not part of this model.
- AuxMatrix.RowMatrix.SetValuesOMP: each thread's row is one turn; the temporary arrays belong to a thread and are not modelled, nor is threaded stashing and cancelling of unowned rows.
- Assembly.AssembleRows: the branch for preallocated CSR arrays, which only moves the diagonal entry to the front, is not modelled.
- MatrixValues.GetValues: the branch for a negative number of rows, which returns whole rows, is not modelled.
- MatrixExchange.ReceiveAssembleGet: what each processor stashes fits (`OffProcStashes.Fits`).
- MatrixExchange.RunExchangeGet: the same; the order in which messages arrive is any function of what was packed; nothing is said of a column numbered -1, the mark of cancelled entries.
- OffProcStashes.OffProcStash.AddRow: there is room for the row number; a write beyond the array, which the program makes where `OffProcStashes.Fits` fails, is not executed in the model.
- Ideal.MetadataAreIdeal: the addresses accessed share no slots; what a load finds after another word of its slot was stored to is in `ShadowRuntime.Runtime.Load`.
- Shadow.CallDecoupled: a callee that is itself a slice, whose call the pass leaves out of the clone, is not distinguished.
- EndToEnd.DecoupledExecutionTheorem: the clone map and the shadow memory at a slice's start are parameters, and one memory stands for a slice that changes buffers.
- Contacts.Contact: the owner lookup is a parameter, without the range queries of the assumed partition.
- Exchange.Receive: range queries and responses of the assumed partition are not modelled, nor is the version with a global partition for matrices.
- VectorExchange.CountOwners: as for `VectorExchange.SortStash`.
- VectorExchange.SortStash: every stashed index lies in the global range; outside it the program uses the rank -1 as an index.
- VectorParts.VectorPart.AddTo: the version without an index list, which adds a block, is not modelled.
- VectorParts.VectorPart.SetTo: nor is that of Set.
- Printing, logs, file reading, timers, debug hooks and tables of names.
- The correctness suite, plotting and run scripts, the PCG and GMRES wrappers and the other benchmarks.
