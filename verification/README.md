# Verified model of the gbaselite executor

gbaselite is a single-node SQL engine with multi-version storage. This project models the parts of its executor
whose correctness spans several functions or several transactions, and proves what they promise:

- **Row writes and indexes** (`SecondaryKey`, `IndexMaintenance`, `RowAssignment`): rows, unique entries and
  secondary entries are three maps that change step by step and stay in exact agreement.
- **Locked UPDATE, DELETE and INSERT** (`LockClaims`, `LockedDml`, `LockedEffects`, `MaskedInsert`): claims,
  verification under the claim and commits as a transition system, with safety over every interleaving and the effect
  of every statement that goes through.
- **Access paths and locking reads** (`Float64`, `Expressions`, `RangeAccess`, `SecondaryAccess`, `LockingRead`,
  `LockedScan`): whatever the planner chooses answers like the full scan, and a locking read answers for the rows as
  they are when it ends, whatever other transactions publish while it runs.
- **External sort and its budgets** (`SortCodec`, `RunMerge`, `ExternalSort`, `SortBudgets`, `SharedSort`): byte-level
  run files, spilling, compaction and merging yield the stable sort, and any number of sorters share two budgets that
  add up.
- **Savepoints** (`Savepoints`): nested child transactions behave as a stack of named snapshots.
- **Kernels** (`Like`, `RowCodec`, `TopK`, `Window`, `MultiDelete`, `AutoIncrement`, `JsonPath`).

`Schema`, `Bytes`, `Ordering` and `Wrappers` hold the shared vocabulary. `dafny verify dfyconfig.toml` checks all of it.

## Where the code and its comments part

The model follows the code. Each of these is a proved statement with its exact condition:

- LIKE compares characters before it recognizes `%`, so a `%` inside the value can hide a match: every pattern is
  decided correctly exactly for values without `%` (`Like.LikeExactIffNoPercent`).
- The sorter's width check counts fewer bytes than its reader allows for, so some accepted rows cannot be read back
  (`SortCodec.WidthCheckIsWeaker`); the declared width is also short for times and for Stringer values
  (`SortCodec.WidthExactIff`).
- An exhausted sort-memory pool refuses a row instead of granting one byte and spilling, exactly when the sorter has no
  batch it must spill anyway (`ExternalSort.Sorter.Add`); `SharedSort.PoolRunsOut` is a statement that gets there.
- INSERT takes a published owner that its snapshot shows under another value for a conflict already reported:
  unique values stay unshared exactly when no value is masked that way (`LockedDml.InsertSoundIffUnmasked`).
- A literal that does not evaluate is reported by a full scan and not by a plan that visits no row
  (`RangeAccess.PlanMatchesFullScan`), although the planner means to keep the general scan for such errors.
- A locking read over a range answers like the full scan exactly when the lock manager accepts its interval
  (`LockedScan.LockedReadMatchesIff`), which it refuses exactly when a lower and an upper bound of WHERE cross
  (`LockedScan.RefusedIffContradict`): `id > 5 AND id < 3` fails instead of returning no rows, while
  `id > 5 AND id < 6` returns none (`LockedScan.RefusedExample`).
- ORDER BY on the key needs no sort, but a locking read drops the direction of an unbounded walk: its rows are in the
  order asked for exactly when the walk is not an unbounded descending one, or has at most one row
  (`LockedScan.OrderKeptIff`, with the run `LockedScan.DescendingReadAscends`).
- An explicit auto-increment value can be handed out again exactly when another statement already holds it in a block,
  or it is beyond the counter and another statement's floor is below it (`AutoIncrement.ExplicitValueCollidesIff`).
  Pushing it to the counter removes the second case and not the first (`AutoIncrement.PushedValueCollidesIff`); both
  occur (`AutoIncrement.ExplicitValueCollides`).
- JSON_SET at a position past the end of an array, or of an array at `[0]` of a scalar, is not found again by the same
  path: found exactly where the path lands (`JsonPath.SetThenLookup`, with both cases in `JsonPath.SetMisses`).

Two encoders have limits of their own that the engine cannot reach. A covering record names its owner exactly when the
owner is shorter than 65536 bytes (`IndexMaintenance.CoveringOwnerExact`), and the store accepts no key above 8192 bytes
(mvcc/store.go:249-257). A row of NULLs in some 390000 columns encodes beyond the limit that decoding enforces
(`RowCodec.DecodeUndoesEncode`), and a table definition is itself limited to 48 KiB
(executor/transaction_engine.go:32-38). Within those bounds both round trips hold without exception
(`IndexMaintenance.StoredCoveringRoundTrip`, `RowCodec.StoredRowRoundTrip`).

## What is taken as given

The lock manager grants exclusive locks until the transaction ends and decides conflicts as `LockingRead.Conflict`
says; a transaction publishes a write only while its claims and the reader's locks are held side by side, so a published
write is one none of those locks refuses. The safety of `LockedDml` needs no validation at commit. `storage.IndexValueKey`
is an arbitrary function of the indexed columns. A binary collation compares bytes. `sort.Slice`, `sort.SliceStable` and
`container/heap` meet their contracts. Sort comparators are total preorders that do not distinguish a value from its
widened form. Files are their contents.

## Model

| member | source | states |
|---|---|---|
| `Bytes.SignedIntegerOrder` | sqllayout/keyspace.go:25-29 | the integer row key is injective and byte order is numeric order over all of int64, negative values included |
| `SecondaryKey.BuildPart` | executor/secondary_index.go:41-56 | the escaping loop produces the part encoding of one column value; kinds without text encode as empty text |
| `SecondaryKey.PartOrder` | executor/secondary_index.go:41-56 | parts of one column compare as the column does, NULL first, whatever bytes follow |
| `SecondaryKey.PartOrderIff` | executor/secondary_index.go:41-56 | parts of different values are in order exactly when the values are: NULL below everything, integers by value, text by bytes |
| `SecondaryKey.PartPrefixFree` | executor/secondary_index.go:41-56 | one part followed by anything is a prefix of another exactly when the values are equal and the rest is |
| `SecondaryKey.EntryInjective` | executor/secondary_index.go:75-80 | equal composite entries carry equal column values and equal owners |
| `SecondaryKey.EntryOrder` | executor/secondary_index.go:75-80 | the first differing column decides the order of two entries, whatever owners follow |
| `SecondaryKey.ProbePrefix` | executor/secondary_index.go:213-236 | the encoding of leading probe values is a prefix of exactly the entries whose leading columns equal them |
| `SecondaryKey.PrefixSuccessor` | executor/secondary_index.go:137-146 | the backwards loop returns the least string above every string with the prefix, or none for all-0xff prefixes |
| `SecondaryKey.PrefixRange` | executor/secondary_index.go:137-146 | the half-open range from a prefix to its successor holds exactly the strings with that prefix, the unbounded case included |
| `IndexMaintenance.TableStore.constructor` | executor/mutation.go:493-500 | an empty table satisfies the exactness invariant |
| `IndexMaintenance.TableStore.WriteSecondaryEntries` | executor/secondary_index.go:100-136 | the loop rewrites the entries of every kept secondary index for one row change, skipping unchanged entries, and succeeds exactly when every entry of both rows encodes |
| `IndexMaintenance.TableStore.DeleteUniqueEntries` | executor/mutation.go:528-542 | the old row's unique entries, and only those, are deleted |
| `IndexMaintenance.TableStore.PutUniqueEntries` | executor/mutation.go:552-572 | succeeds exactly when no other row owns one of the new entries, and then adds all of them for the new key |
| `IndexMaintenance.TableStore.CheckNewRow` | executor/mutation.go:497-524 | CHECK, type, key and duplicate-key failures are reported before anything changes |
| `IndexMaintenance.TableStore.Write` | executor/mutation.go:493-578 | the outcome of a row write, encoding failures included, is decided by the rows alone, and a successful write leaves rows, unique and secondary entries in exact agreement |
| `IndexMaintenance.TableStore.Apply` | executor/mutation.go:486-578 | over any sequence of writes both index maps stay the exact function of the row map; a failed statement changes none of the three maps |
| `IndexMaintenance.ExactIsAFunction` | executor/mutation.go:493-578 | rows determine both index maps: two exact states over the same rows are equal |
| `IndexMaintenance.ExactMeansUnique` | executor/mutation.go:552-572 | in an exact state no two rows share a unique entry |
| `IndexMaintenance.ConflictsFound` | executor/mutation.go:517-568 | the checks against the key map and the reduced unique map find exactly the rows that own the new key or a new unique value |
| `IndexMaintenance.WrittenIff` | executor/mutation.go:493-578 | a row is written if and only if it passes CHECK and type, has a key, encodes, and neither its key nor one of its unique values belongs to another row |
| `IndexMaintenance.UpdateInPlaceIsWritten` | executor/mutation.go:517-568 | an update that keeps its key and its unique values is never taken for a duplicate of itself |
| `IndexMaintenance.DeleteTakesAway` | executor/mutation.go:528-551 | a DELETE always succeeds, takes away its row and leaves every other key as it was |
| `IndexMaintenance.WritePuts` | executor/mutation.go:493-578 | after a write the new row stands under its key, the old key is free when it differs, and every other key is as it was |
| `IndexMaintenance.SecondaryRewritten` | executor/secondary_index.go:100-136 | rewriting the entries of one changed row keeps the secondary map a function of the rows |
| `IndexMaintenance.SecondaryScanExact` | executor/secondary_index.go:240-263 | a prefix scan of a secondary index visits exactly the rows with the probed values; a filter that implies them returns what it returns on the whole table |
| `IndexMaintenance.CoveringAgrees` | executor/secondary_index.go:57-99 | a covering read agrees with the row on every covered column |
| `IndexMaintenance.CoveringOmits` | executor/secondary_index.go:57-93 | a covering record holds NULL in every column that is neither indexed nor part of the primary key |
| `IndexMaintenance.StoredRecordsEncode` | executor/secondary_index.go:75-99 | every record an index stores encodes, and so does its row |
| `IndexMaintenance.CoveringOwnerExact` | executor/secondary_index.go:81-99 | the covering record names its owner exactly when the owner is shorter than 65536 bytes |
| `IndexMaintenance.StoredCoveringRoundTrip` | executor/secondary_index.go:240-263 | for every key the store accepts the covering record gives back its owner and its columns |
| `LockClaims.IndexEntryLocks` | executor/modify_insert.go:469-488 | the components are the claims of every non-primary entry of the row, none without a row or an owner, and an error exactly when an entry does not encode |
| `LockClaims.IndexReplacementLocks` | executor/modify_insert.go:508-535 | the components are the claims of the replacement's entries, with intentions on the keys the old row did not have, on all of them without an old row or key; an error exactly when an entry of either row does not encode |
| `LockClaims.ModifyClaimsCover` | executor/locking_modify.go:53-152 | every row key, unique entry and secondary entry an UPDATE or DELETE touches is covered by an exclusive claimed component |
| `LockClaims.UpdateIntentionsExact` | executor/modify_insert.go:508-535 | a successful UPDATE carries an insert intention on exactly the keys its write newly creates |
| `LockClaims.InsertIntentionsExact` | executor/modify_insert.go:351-402 | a successful INSERT carries an insert intention on exactly the keys it creates |
| `LockClaims.DeleteIntentionsExact` | executor/locking_modify.go:53-87 | a DELETE claims no insertion and creates no entry |
| `LockClaims.OtherSpaces` | executor/modify_insert.go:469-488 | the exception these statements make for primary entries, which the row key stands for, is exactly the space of the primary index |
| `LockedDml.VerifyReplacementUniqueValues` | executor/locking_modify.go:177-210 | the loop lets a replacement through exactly when no unique value it installs belongs to another row |
| `LockedDml.StepKeepsInv` | executor/locking_modify.go:53-210 | every step of every statement kind keeps the invariant that ties locks, overlays, verified versions and published rows together |
| `LockedDml.RunKeepsInv` | executor/locking_modify.go:53-210 | the invariant holds in every state of every interleaving |
| `LockedDml.LockedDmlSafety` | executor/dml_locking.go:306-328 | in every interleaving no published version has two rows with one unique value, and no commit replaces or removes a row version newer than the view its statement read |
| `LockedDml.UpdateDeleteUnmasked` | executor/locking_modify.go:177-210 | runs of UPDATE and DELETE need no further condition for that safety |
| `LockedDml.InsertSoundIffUnmasked` | executor/dml_unique.go:79-132 | an INSERT its own checks let through keeps unique values unshared if and only if none of its values is masked by a visible owner |
| `LockedDml.InsertRunSoundIffUnmasked` | executor/dml_unique.go:43-132 | the same for the run from verification to commit, in every reachable state |
| `LockedEffects.TargetClaimedIff` | executor/locking_modify.go:53-87 | a statement claims a target if and only if it sees the row and no other transaction holds the row or one of its entries; what it then holds is exactly the claim |
| `LockedEffects.VerifiedIffUnchanged` | executor/dml_locking.go:306-328 | under the claim the statement goes on if and only if the row is its own write or has not changed since its view; otherwise its transaction is doomed |
| `LockedEffects.ReplacementVerifiedIff` | executor/locking_modify.go:105-210 | an UPDATE is let through if and only if its new key is free and none of its unique values belongs to another row |
| `LockedEffects.FirstForeignDecides` | executor/locking_modify.go:177-210 | the first unique value with a foreign owner decides the error: a duplicate when the statement sees the owner's row, a retry when it does not |
| `LockedEffects.DeletePublishes` | executor/modify_delete.go:87-110 | from every reachable state a verified DELETE and its commit publish one version, in which that row and its unique values are gone and everything else is the last version under the transaction's other writes |
| `LockedEffects.UpdatePublishes` | executor/mutation.go:493-578 | the same for a verified UPDATE of a writable row: the new row with its unique values stands in the place of the old one |
| `LockedEffects.UnwritableFails` | executor/mutation.go:493-578 | an UPDATE whose row is not writable fails without a write |
| `LockedEffects.InsertPublishes` | executor/modify_insert.go:214-240 | the same for a verified INSERT: the row and its unique values are added under a key that was free |
| `LockedEffects.UnfitInsertFails` | executor/mutation.go:497-516 | an INSERT of a row that fails CHECK or its types, or that has another key, fails without a write |
| `LockedEffects.PublishedRowsFit` | executor/mutation.go:497-516 | over every interleaving every published row, every pending write and every saved one passes CHECK and its types and stands under its own key |
| `LockedEffects.DeleteTakesEffect` | executor/modify_delete.go:87-110 | the whole statement, from claim to commit: a DELETE of a row that is free and unchanged since the view goes through and takes effect |
| `LockedEffects.UpdateTakesEffect` | executor/locking_modify.go:105-210 | an UPDATE of a verified target whose replacement meets no other row goes through and takes effect |
| `LockedEffects.InsertTakesEffect` | executor/dml_unique.go:43-132 | an INSERT with a free key and free unique values goes through and takes effect |
| `LockedEffects.BeginSees` | executor/transaction_engine.go:431-454 | a transaction begins on the last published version without writes |
| `LockedEffects.StatementSees` | executor/transaction_engine.go:431-454 | a statement reads the last published version under READ COMMITTED and the transaction's own snapshot otherwise, always under the transaction's writes |
| `LockedEffects.ReleaseAndAbort` | executor/transaction_engine.go:510-534 | a finished statement hands its writes to the transaction; an aborted transaction publishes nothing |
| `LockedEffects.RestoreReturns` | executor/transaction_engine.go:510-524 | after any run inside a statement, other transactions included, rolling the statement back returns its transaction to the writes, and to every row it saw, when the statement began |
| `MaskedInsert.MaskedInsertRun` | executor/dml_unique.go:101-107 | a concrete run of two transactions that publishes a duplicate unique value through a masked INSERT |
| `RowAssignment.AssignUpdateRow` | executor/modify_update.go:184-243 | the row produced has in every column the value of the last assignment to it, the ON UPDATE time if none names it, or the old value; the list fails exactly when an expression does; the old row is never written even when it is the evaluation row |
| `RowAssignment.LastAssignmentStands` | executor/modify_update.go:184-202 | the last assignment to a column decides it, in the row produced and in the row later expressions read |
| `RowAssignment.FailsIff` | executor/modify_update.go:187-195 | the list fails with an error if and only if some expression fails with it on the row the earlier assignments leave |
| `RowAssignment.ProducedColumn` | executor/modify_update.go:184-217 | each column of the produced row: last assignment, ON UPDATE time, or the old value |
| `RowAssignment.PlainSeesUpdated` | executor/modify_update.go:171-202 | in a plain UPDATE every expression sees the row as the earlier assignments left it |
| `RowAssignment.JoinWindowFollows` | executor/modify_update.go:196-201 | in an UPDATE over a join the target's window of the joined row follows the row being produced |
| `RowAssignment.UnnamedKept` | executor/modify_update.go:184-217 | columns no assignment names keep their values |
| `Float64.FloatCompareExact` | executor/mutation_access.go:60-67 | comparing any int64 with a literal strictly inside +-2^53 through float64 is the exact comparison |
| `Float64.FloatCompareBoundary` | executor/mutation_access.go:65-67 | at +-2^53 two different integers already compare equal, so the guard is tight |
| `Expressions.SafeEval` | executor/mutation_access.go:27-75 | a safe WHERE fails on a row exactly when one of its literals does not evaluate, with an error that does not depend on the row |
| `Expressions.ComparisonMeans` | executor/executor.go:5672-5721 | every comparison of an integer column with a literal the planner accepts, in both operand orders, is the comparison of the integers |
| `Expressions.BetweenMeans` | executor/executor.go:5633-5653 | BETWEEN holds exactly for the integers from its lower to its upper end, both included, and NOT BETWEEN for the others |
| `Expressions.NullCompares` | executor/executor.go:5672-5721 | a NULL column compares as NULL, and fails the NULL-safe comparison with a number |
| `Expressions.AndMeans` | executor/executor.go:6560-6568 | AND in three-valued logic: true iff both sides are, false iff one is, NULL otherwise |
| `Expressions.LiteralTruth` | executor/executor.go:6815-6835 | a number literal is true unless zero, and NULL is never true |
| `RangeAccess.TrueMeansWithin` | executor/range_access.go:119-165 | a row for which a safe WHERE is true satisfies every bound the planner collects from it |
| `RangeAccess.RangeBuilder.Add` | executor/range_access.go:94-118 | one comparison intersects the range with the integers that satisfy it, inclusivity included |
| `RangeAccess.RangeBuilder.Visit` | executor/range_access.go:119-162 | visiting WHERE intersects the range with exactly the integers all collected bounds allow |
| `RangeAccess.PrimaryRange` | executor/range_access.go:83-165 | the derived key range admits exactly the integer keys all bounds of WHERE allow, and its ends are the tightest of those bounds |
| `RangeAccess.EndsCrossIff` | executor/range_access.go:94-118 | the ends of the range cross if and only if a lower and an upper bound of WHERE contradict each other |
| `RangeAccess.KeyOnlyMeans` | executor/range_access.go:119-165 | a WHERE of comparisons and BETWEENs on the key, joined by AND, is true of a row if and only if the key meets each of them, and if and only if it is within the planner's bounds |
| `RangeAccess.AcceptedIffInRange` | executor/range_access.go:83-165 | such a WHERE accepts a stored row if and only if its key lies in the derived range |
| `RangeAccess.AnswerIsRange` | executor/access_plan.go:88-116 | whatever plan is chosen, the answer to such a WHERE is exactly the rows of the derived range, each once |
| `RangeAccess.PointIsUsed` | executor/physical_select.go:239-273 | `key = n` is a point lookup, and accepts exactly the row stored under that key |
| `RangeAccess.UniqueCandidate` | executor/unique_access.go:27-117 | returns a unique index whose columns WHERE fixes, with the value to probe, whenever there is one |
| `RangeAccess.ConjunctFixes` | executor/unique_access.go:27-117 | an equality with a literal fixes its integer column wherever it stands among the conditions |
| `RangeAccess.UniqueIsUsed` | executor/unique_access.go:27-117 | a unique index whose columns are all fixed that way is probed, unless the value has no key |
| `RangeAccess.PlanAccess` | executor/access_plan.go:40-87 | every plan returned is one WHERE justifies: a point, a unique probe, a range, an ordered walk or a full scan |
| `SecondaryAccess.TrueMeansEqual` | executor/secondary_index.go:163-205 | a row for which WHERE is true has the collected value in every indexable column, the last of several comparisons and the collation guard included |
| `SecondaryAccess.TextEqualMeans` | executor/executor.go:5684-5694 | under a binary collation a text column equals a string literal, in both operand orders, exactly when the bytes agree |
| `SecondaryAccess.PlanSecondary` | executor/secondary_index.go:147-239 | no usable index probes more columns, none of those that probe as many covers unless the chosen one does, and it is the first of its kind; none is chosen if and only if no index has a fixed leading column |
| `SecondaryAccess.IndexIsUsed` | executor/secondary_index.go:147-239 | an index over integer and text columns is usable as soon as WHERE has an equality on its leading column |
| `SecondaryAccess.CoveringIff` | executor/secondary_index.go:206-239 | the index alone answers if and only if it or the primary key has every column the statement reads |
| `SecondaryAccess.YieldedIsStored` | executor/secondary_index.go:240-263 | the record a covering read yields is what the index stores for the row |
| `SecondaryAccess.SecondaryMatchesFullScan` | executor/secondary_index.go:147-263 | filtering what the chosen index yields, covering records or rows, gives the rows or the error of the full scan, with the exception of unusable literals |
| `SecondaryAccess.PlanSQLAccess` | executor/access_plan.go:40-87 | point and unique accesses come first, then the best secondary index, then a range or the key order; each is one WHERE justifies |
| `SecondaryAccess.AccessMatchesFullScan` | executor/access_plan.go:88-116 | the same over every access the whole planner can choose |
| `RangeAccess.AcceptedIsVisited` | executor/access_plan.go:88-116 | every row WHERE accepts is among the keys the plan visits |
| `RangeAccess.PlanMatchesFullScan` | executor/access_plan.go:88-116 | filtering what a plan visits gives the rows, each once, or the error of the full scan, if and only if not (a literal does not evaluate and the plan visits no row of a non-empty table) |
| `RangeAccess.HiddenLiteralError` | executor/mutation_access.go:27-29 | the exception occurs: an unusable number literal next to an empty interval goes unreported |
| `LockingRead.InsertionGapExact` | executor/locking_read.go:360-376 | the gap around an absent key contains that key and no existing key |
| `LockingRead.ScanBoundsAdmit` | executor/locking_read.go:109-126 | the locked bounds admit the key of every row WHERE accepts |
| `LockingRead.ReturnedRowIsHeld` | executor/locking_read.go:180-251 | a statement cannot claim a row the read returned |
| `LockingRead.NoPhantom` | executor/locking_read.go:109-251 | under the locks a read ends up with, every insert, update or delete by another transaction that would change what it returned claims a component the lock manager refuses |
| `LockingRead.AnswerIsFullScan` | executor/locking_read.go:109-251 | the answer that is protected is what a full scan selects, with the stored rows |
| `LockingRead.WriteIsLegal` | executor/mutation.go:493-578 | the writes of others considered here are all the row writes the engine carries out, and change the rows as those do |
| `LockingRead.ScanBlocksInsertIff` | executor/lock_plan.go:225-262 | a range read blocks an insert if and only if its key lies in the locked interval |
| `LockingRead.ReadersMeet` | lockmanager/compatibility.go:28-60 | two shared range reads never delay one another; an exclusive one is delayed by a shared one if and only if both hold a common row |
| `LockingRead.RefusedIsEmpty` | lockmanager/resource.go:76-88 | the intervals the lock manager refuses contain no key |
| `LockedScan.WriteSpares` | storageengine/mvccadapter/iterator.go:85-108 | a write that gets past the scan's locks creates no key in its range and touches no claimed row |
| `LockedScan.StepKeepsScan` | storageengine/mvccadapter/iterator.go:141-452 | listing a page, claiming a key and any write of others keep the scan's invariant: interval and claimed rows held, keys in order, no row of the range missed, values current |
| `LockedScan.SeenIsPrefix` | storageengine/mvccadapter/iterator.go:306-384 | at every moment what the scan has read is the beginning of the range as stored at that moment, with the stored values, and in the end all of it |
| `LockedScan.LockedReadMatchesIff` | executor/locking_read.go:180-202 | over every interleaving a locking range read answers like a full scan of the rows as they are when it ends, if and only if its interval is accepted (and up to unusable literals) |
| `LockedScan.LockedAnswerIsRange` | executor/locking_read.go:180-202 | over every interleaving an accepted locking read on key conditions answers exactly the rows that lie in its range when it ends |
| `LockedScan.RefusedIffContradict` | lockmanager/resource.go:76-88 | the interval of a planned read is refused if and only if two bounds of WHERE contradict each other |
| `LockedScan.PairRefusedIff` | lockmanager/resource.go:76-88 | `id > a AND id < b` is refused if and only if a >= b |
| `LockedScan.RefusedExample` | lockmanager/resource.go:76-88 | `id > 5 AND id < 3` is refused; `id > 5 AND id < 6` admits no integer and is not |
| `LockedScan.LimitedReadStands` | executor/physical_select.go:230-236 | a read that stops early under LIMIT has returned the beginning of the filtered range, and later writes that get past its locks leave it so |
| `LockedScan.OrderKeptIff` | executor/lock_plan.go:148-160 | the rows come in the direction of the plan if and only if it is not an unbounded descending walk, or there is at most one row |
| `LockedScan.DescendingReadAscends` | executor/lock_plan.go:148-156 | a run of an unbounded descending read that yields two rows in ascending order |
| `LockedScan.ScanHolds` | storageengine/mvccadapter/iterator.go:306-384 | a finished scan holds its interval and a record lock on every row of the range |
| `LockedScan.ScanDelaysInsertIff` | storageengine/mvccadapter/iterator.go:306-384 | at every moment of every interleaving a locking scan delays an insert if and only if its key lies in the interval |
| `LockedScan.UniqueReadHolds` | executor/locking_read.go:284-328 | a unique-index read holds the entry and the row it names, although others write between its two claims |
| `SortCodec.WriteSortRow` | executor/external_sort.go:585-693 | writes the record of a row, or stops at its first unsupported value |
| `SortCodec.ReadSortCells` | executor/external_sort.go:709-787 | the reading loop computes the reader specified on bytes |
| `SortCodec.RowRoundTrip` | executor/external_sort.go:585-788 | a written row reads back, widened, with the next record untouched, if and only if it is within the reader's bound |
| `SortCodec.PlainRowRoundTrip` | executor/external_sort.go:585-788 | a row without narrow numbers and Stringers is read back exactly as it was written |
| `SortCodec.RowContentKept` | executor/external_sort.go:585-788 | every other supported row keeps its ordinal and the content of each value: the number, the float, the text |
| `SortCodec.WidthExactIff` | executor/external_sort.go:545-584 | the declared width is the written width if and only if the row has no time and no non-empty Stringer; it is never too large |
| `SortCodec.WidthCheckIsWeaker` | executor/external_sort.go:94-100 | the width check admits every readable row, and also 200 integers under a limit of 4096, which are not readable |
| `RunMerge.Merge` | executor/external_sort.go:465-516 | yields the rows of sorted runs in order, complete if and only if every row is within the reader's bound; what is left comes after what was yielded |
| `RunMerge.PrefixOfSorted` | executor/external_sort.go:465-516 | rows yielded before everything left are the beginning of the sorted sequence of all rows |
| `ExternalSort.Sorter.constructor` | executor/external_sort.go:55-72 | a new sorter is empty and holds nothing of either budget |
| `ExternalSort.Sorter.WriteBytes` | executor/external_sort.go:220-232 | however a run file is cut into pieces, the bytes written are charged, and the whole of it is written if and only if the temporary budget has room for it |
| `ExternalSort.Sorter.Compact` | executor/external_sort.go:292-329 | groups of eight are merged; no row is lost and ceil(n/8) runs remain |
| `ExternalSort.GroupsShrink` | executor/external_sort.go:357-361 | ceil(n/8) is below n for n of two or more, so the compaction loops end |
| `ExternalSort.Sorter.Flush` | executor/external_sort.go:234-269 | the batch becomes a sorted run, its memory goes back, and a failure has one of three explained causes |
| `ExternalSort.Sorter.Add` | executor/external_sort.go:138-175 | a row is refused as too wide if and only if its width exceeds the limit, and for want of memory, with the sorter intact, if and only if the pool is exhausted and the batch need not be spilled; otherwise exactly this row is added and gets as much memory as is available |
| `ExternalSort.Sorter.RowLimits` | executor/external_sort.go:74-85 | a row may take a sixteenth of the memory, at least 4 KiB, and run files are read under the same limit |
| `ExternalSort.RetainedCovers` | executor/query_budget.go:117-136 | the memory charged for a row covers its header, a slot per value and all that its reader will count, exactly that without times |
| `ExternalSort.Sorter.Finish` | executor/external_sort.go:331-364 | yields the stable sort of the added rows: exactly it in memory or for plain rows, with the content of every value kept otherwise; a spilled sort with an unreadable or unsupported row fails, and what it yielded is a prefix of the answer; temporary space is refused only when there is no room for two run files of all rows; both budget shares are returned |
| `ExternalSort.Sorter.MergeToSingleRun` | executor/external_sort.go:373-386 | leaves at most one run that holds every row in order |
| `ExternalSort.Sorter.ReadSingleRun` | executor/external_sort.go:392-424 | every pass over the one run yields the whole stable sort, plain rows unchanged and the content of other values kept |
| `ExternalSort.Sorter.Close` | executor/external_sort.go:428-443 | a sorter's whole share of both budgets is returned exactly once |
| `ExternalSort.SpillKeepsOrder` | executor/external_sort.go:126-129 | going through run files widens values and does not change their order |
| `ExternalSort.SpillKeepsContent` | executor/external_sort.go:234-269 | going through run files keeps the content of every value, and plain rows altogether |
| `SortBudgets.SorterBudget.Reserve` | executor/candidate_sorter.go:46-57 | refuses if and only if less than one byte is requested or available; otherwise grants between one byte and the request, all of it unless that exhausts the pool, and the total is never exceeded |
| `SharedSort.Statement.Open` | executor/external_sort.go:55-72 | a statement can open any number of sorters on its budgets, refused exactly below 64 KiB |
| `SharedSort.Statement.StepKeeps` | executor/candidate_sorter.go:24-63 | any step of one sorter that leaves the others' shares alone keeps memory used the sum of what all sorters hold, temporary bytes used the sum of what they charged, and both within their limits |
| `SharedSort.Statement.ChargedForFiles` | executor/query_budget.go:146-170 | temporary bytes used are the bytes in the live run files of all sorters |
| `SharedSort.Statement.AddTo` | executor/external_sort.go:138-175 | adding a row to one of several live sorters keeps both budgets balanced and the other sorters unchanged |
| `SharedSort.Statement.FinishAt` | executor/external_sort.go:331-364 | finishing one of several sorters yields its stable sort, plain rows unchanged, hands back its shares and keeps both budgets balanced |
| `SharedSort.Statement.MergeAt` | executor/external_sort.go:373-386 | merging one of several sorters to a single run keeps both budgets balanced |
| `SharedSort.Statement.CloseAt` | executor/external_sort.go:428-443 | closing a sorter in any state hands back exactly its shares |
| `SharedSort.Statement.CloseAll` | executor/external_sort.go:428-443 | when all sorters are closed both budgets are empty, whatever happened before |
| `SharedSort.PoolRunsOut` | executor/external_sort.go:154-164 | a run from a fresh statement in which one row takes the whole pool and the first row of a second sorter is refused |
| `TopK.SiftUp` | executor/topk.go:31-39 | restores the heap after an append without changing its rows |
| `TopK.SiftDown` | executor/topk.go:46-60 | restores the heap after its root is replaced without changing its rows |
| `TopK.BoundedRows.Offer` | executor/topk.go:23-61 | after any offers the heap holds exactly the first k rows of the stable sort of all offered rows |
| `TopK.BoundedRows.Result` | executor/topk.go:62-69 | the sorted result is the first k elements of the stable full sort |
| `Ordering.StableSortMeaning` | executor/topk.go:10-22 | the reference sort is ordered, a permutation, and keeps the input order of ties |
| `Savepoints.Session.CreateSavepoint` | executor/savepoint_mvcc.go:52-86 | pushes a named snapshot of the current view, hides older ones of that name, and changes nothing when refused at 32 layers or when the child cannot open |
| `Savepoints.Session.ReleaseSavepoint` | executor/savepoint_mvcc.go:88-95 | the latest snapshot of that name loses its name and nothing else changes; an unknown name changes nothing |
| `Savepoints.Session.RollbackTo` | executor/savepoint_mvcc.go:97-150 | restores exactly the named snapshot and drops the later ones, also when the fresh child cannot open; a failed publication ends the transaction |
| `Savepoints.Session.Commit` | executor/savepoint_mvcc.go:154-176 | publishes every write of every layer at once, at each key the write of the last layer that wrote it, or nothing, and leaves no transaction open |
| `Savepoints.Session.Write` | executor/savepoint_mvcc.go:11-15 | after a write the written keys have their new values or are gone, every other key and every snapshot is as before |
| `Savepoints.Session.Rollback` | executor/savepoint_mvcc.go:179-198 | every layer and the root are closed and nothing is published |
| `Savepoints.CutStack` | executor/savepoint_mvcc.go:110-129 | rolling back the layers from i on restores the view below them and keeps the earlier snapshots |
| `Savepoints.ViewIsCombined` | executor/savepoint_mvcc.go:11-15 | reading through the parent chain is the root snapshot under all layers' writes, the later ones winning |
| `Savepoints.ViewAt` | executor/savepoint_mvcc.go:11-15 | at every key the session reads the write of the last layer that wrote it, or the root snapshot if none did |
| `Savepoints.CombinedWins` | executor/savepoint_mvcc.go:154-176 | the writes of all layers merged over any store: at every key the last writer wins |
| `Savepoints.ReusedNameIsGone` | executor/savepoint_mvcc.go:52-95 | a savepoint set under a used name takes the name away from the older one and changes no view; once it is released, the name is unknown |
| `Savepoints.SavepointRestores` | executor/savepoint_mvcc.go:97-150 | over every run of writes, savepoints, releases and rollbacks, ROLLBACK TO restores what was visible when the savepoint was set, unless the name was reused or an older mark was returned to |
| `Savepoints.RunContinues` | executor/savepoint_mvcc.go:52-150 | a run takes its commands one after the other |
| `Like.LikeMatchCaseSensitive` | executor/executor.go:6610-6636 | the backtracking loop ends, never accepts a non-match, and decides the % and _ match relation whenever the value or the pattern has no % |
| `Like.LikeExactIffNoPercent` | executor/executor.go:6617-6620 | the loop decides every pattern correctly for a value if and only if the value contains no % |
| `Like.HostMatches` | catalog/privileges.go:380-406 | the same for host patterns, with the loopback addresses of localhost |
| `RowCodec.EncodeSQLRow` | executor/row_layout.go:20-71 | the buffer and its bitmap, filled in place, are the specified layout or the first error |
| `RowCodec.DecodeSQLRowInto` | executor/row_layout.go:101-184 | the advancing reader computes the specified decoder |
| `RowCodec.DecodeUndoesEncode` | executor/row_layout.go:20-184 | decode returns the row encode stored, if and only if the record is within the value limit, which only wide all-NULL rows exceed |
| `RowCodec.StoredRowRoundTrip` | executor/row_layout.go:20-184 | decode returns every row a table that can be declared encodes |
| `RowCodec.ProjectedDecode` | executor/row_layout.go:95-184 | a projected decode agrees with the row on every needed column |
| `RowCodec.TrailingBytesRejected` | executor/row_layout.go:180-184 | a record followed by anything is rejected |
| `RowCodec.RecordsPrefixFree` | executor/row_layout.go:20-71 | no record is a proper prefix of another record of the same schema |
| `Window.UpdateExact` | executor/executor.go:4051-4070 | the running sum stays exact across the switch from int64 to decimal |
| `Window.FinishExact` | executor/executor.go:4084-4121 | SUM is NULL without numbers, the exact sum when it fits in 64 bits, and an error otherwise |
| `Window.RowNumberAt` | executor/executor.go:3421-3425 | the row at position i of its sorted partition is preceded by exactly i rows, so ROW_NUMBER runs through 1..n once |
| `Window.RankAt` | executor/executor.go:3426-3438 | RANK is one plus the number of rows with a smaller key |
| `Window.DenseRankAt` | executor/executor.go:3426-3438 | DENSE_RANK is one plus the number of distinct smaller keys |
| `Window.FrameAt` | executor/executor.go:3461-3485 | the frame of a row is everything up to and including its peers |
| `Window.PartitionSorted` | executor/executor.go:3416-3420 | the stable sort lists each partition by key, equal keys in row order |
| `Window.CountedRows` | executor/executor.go:3416-3485 | what ranks count and frames hold, for any two rows: same partition and the order of their keys, earlier rows first among equal ones |
| `Window.ApplyWindow` | executor/executor.go:3416-3487 | with or without ORDER BY every row of every partition gets the value SQL defines for it; an error is reported if and only if some frame's sum does not fit |
| `MultiDelete.Search.Visit` | executor/mutation_multi_delete.go:221-243 | the depth-first visit finishes its target after all targets that reference it, or exhibits a cycle |
| `MultiDelete.Order` | executor/mutation_multi_delete.go:209-249 | an error if and only if the references between distinct targets are cyclic; otherwise a permutation with every referencing target first |
| `MultiDelete.LedgerKeyOrder` | executor/candidate_sorter.go:171-185 | ordinal keys compare numerically and read back |
| `MultiDelete.PassesReproduceRun` | executor/multi_delete_pipeline.go:199-310 | reading the staged run target by target reproduces it once, with a child target's rows before its parent's |
| `AutoIncrement.InsertCounters.Advance` | executor/modify_insert.go:87-96 | pushes the floor at most once per value and never lowers the counter |
| `AutoIncrement.InsertCounters.Reserve` | executor/modify_insert.go:118-133 | the id is larger than every id the statement generated and every positive value it was given |
| `AutoIncrement.InsertCounters.Use` | executor/modify_insert.go:559-568 | an explicit positive value raises the floor and moves the next id past it |
| `AutoIncrement.IdsNeverRepeat` | executor/modify_insert.go:63-133 | over every interleaving no id is handed out twice, a statement's ids increase and exceed the explicit values it used before |
| `AutoIncrement.ReservationIsARun` | executor/modify_insert.go:118-133 | a statement's reservation is a run of the interleaving model's steps that issues the id it returns |
| `AutoIncrement.PushedFloorHolds` | executor/modify_insert.go:84-110 | once a floor has been pushed, every block reserved later by any statement lies above it |
| `AutoIncrement.IssuedAgainIff` | executor/modify_insert.go:63-133 | from every reachable state some continuation hands out a value if and only if a live block holds it, or it is beyond the counter, within int64, and some statement's floor is below it |
| `AutoIncrement.ExplicitValueCollidesIff` | executor/modify_insert.go:84-133 | a value given to one statement can be handed out again if and only if another statement holds it in its block, or it is beyond the counter and another statement's floor is below it |
| `AutoIncrement.PushedValueCollidesIff` | executor/modify_insert.go:84-110 | after the push that happens if and only if another statement reserved a block with it before |
| `AutoIncrement.ExplicitValueCollides` | executor/modify_insert.go:84-133 | both failures occur, before the push and after it |
| `JsonPath.SetIsReplaceOrInsert` | executor/json_path.go:176-229 | JSON_SET equals JSON_REPLACE where the path exists and JSON_INSERT where it does not |
| `JsonPath.ReplaceAndInsert` | executor/json_path.go:176-229 | JSON_REPLACE of a missing path and JSON_INSERT of an existing path change nothing |
| `JsonPath.SetThenLookup` | executor/json_path.go:132-229 | a lookup after JSON_SET returns the new value if and only if the path lands, a condition on the document, the path and whether the new value is an array |
| `JsonPath.SetMisses` | executor/json_path.go:176-229 | both cases in which JSON_SET does not land, on concrete documents |
| `JsonPath.ModifyElsewhere` | executor/json_path.go:176-229 | paths that part ways at an object key or an array element are not affected |
| `JsonPath.ModifyInside` | executor/json_path.go:176-229 | a modification below a path is the modification of the value found there |
| `JsonPath.SetBeyond` | executor/json_path.go:176-229 | JSON_SET and JSON_INSERT past the end of an array append to it, at a later position of a scalar keep the scalar as element 0, and at a missing key add it |
| `JsonPath.RemoveElsewhere` | executor/json_path.go:176-229 | JSON_REMOVE leaves every other part of the document alone, up to the shift of later array elements |
| `JsonPath.RemoveMissing` | executor/json_path.go:176-229 | JSON_REMOVE of a missing path changes nothing |
| `JsonPath.RemoveLeaf` | executor/json_path.go:176-229 | JSON_REMOVE of an object key takes it away and of an array element moves the later ones down |

## Left out

- Lock manager internals, deadlock detection, lock waits, the MVCC store and Raft: only their contracts are used.
- Foreign-key actions and checks: cascades are not part of the model.
- INSERT ... ON DUPLICATE KEY, REPLACE and INSERT IGNORE: only the plain INSERT path is modelled.
- RangeAccess.PlanAccess: point lookups are modelled for integer primary keys only, not for text or composite keys.
- LockingRead.NoPhantom: states the conflict for tables with an integer primary key, from the locks `LockedScan.ScanHolds` and `LockedScan.UniqueReadHolds` derive; locking reads through secondary indexes are refused by the engine.
- LockedScan.LockedReadMatchesIff: lock waits end in a grant; timeouts, deadlocks and lost leadership are not modelled.
- IndexMaintenance.TableStore.Write: failures of the store itself, such as a key or record beyond its size limits, are not among the outcomes.
- DECIMAL, FLOAT and date arithmetic, case-insensitive collations and the scalar function library: comparison and truth of other values stay arbitrary functions.
- Window aggregates over floats and decimals, AVG, MIN and MAX: only ranks, COUNT and integer SUM with a BIGINT result are modelled.
- ExternalSort.Sorter.Add: a sorter is assumed to see fewer than 2^64 rows, the range of its ordinals.
- ExternalSort.Sorter.Finish: consumer errors, cancellation and file-system failures are not modelled; a refusal of temporary space has a bound here, and its exact condition only for one file, in WriteBytes.
- AutoIncrement: one column's counter; several columns have independent counters of the same kind.
- JsonPath: documents are values, so updating maps and slices in place is not captured; wildcard paths are not modelled.
- Savepoints.Session.RollbackTo: the dirty-write registry is a step that may fail, without contents of its own.
- Privileges, accounts, configuration, backup, EXPLAIN and the network protocol.
