# SummerDB: the storage engine and its neighbours, modelled and proved

The centre is multi-version concurrency control. Base rows are overwritten in place; every overwrite
puts an undo record on a per-row doubly linked chain; a scan walks the chain to rebuild what its
transaction may see; commit restamps the records, rollback replays them backwards, and the removal
of a transaction unlinks what nobody can need. The catalog runs the same protocol over a list of
versions per name. The specification is short (what was committed when I started, plus my own
writes), the implementation is shared mutable chains, and the project connects the two.

The proof has three layers.

1. `Versions` is the algebra of one chain: read, overwrite, restamp, revert, purge. `Mvcc` is the
   transition system of all operations, each one atomic event, with its invariant. `Snapshot`,
   `Atomicity` and `QueryMemory` prove what holds over every run: snapshot isolation against a
   reference machine without chains, and exactly when the code gives it; atomic commit, exact
   rollback, invisible cleanup, and undo memory that is never freed too early, with the exact case
   in which it is freed late. `Reference` lets the reference machine decide by itself which events
   are accepted, and `Leftovers` says that nothing is kept for nobody. `Projection` relates a run to
   what it says about some of its keys.
2. `TableStorage`, `UndoBuffer`, `Engine`, `DataTable`, `CatalogSet` and `Catalog` are the real
   structures: arenas of linked records, undo buffers with their loops, the transaction lists,
   chunks of rows, catalog versions with parent and child pointers. Every method is proved to do
   exactly one event (or one list of events) of the transition system, and to leave what the others
   need. `Database` puts any number of tables on one engine, `Inserts` says what later transactions
   see of inserted rows, and `RowsAndNames` puts rows and catalog under one manager with one
   history. So the theorems of layer 1 hold for any sequence of calls. A record or version is a
   number, its position in an arena, instead of a pointer.
3. `Uniqueness`, `IndexTree`, `UniqueIndex` and `UniqueTable` put the unique index on top: the tree
   with its node pointers, the check of a key against the chains, and uniqueness of the keys of each
   indexed table over all interleavings, whatever is written to other tables, with the exact runs
   that keep it. `KeyAcceptance` says in terms of rows which keys get in. `SeveralIndexes` is the
   case of more than one index, with its reverting loops.

Beside it stand the log from records to bytes and back (`Serialization`, `LogRecords`,
`WriteAheadLog`), which `Durability` ties to the commits of a database, the byte copying of rows
(`TupleSerializer`), day numbers (`Date`), sorting (`Order`), and the join from condition to result
(`Join`, `JoinBinding`, `NestedLoopJoin`, `ColumnBinding`). `RowIdentifiers` and `NullMasks` are
about the identifiers and the NULLs that a scan gives out, `KeyReuse` is a run in which a key comes
twice, `Refusals` one in which an update is lost, and `Removal` holds the lemmas about cleanup that
rows and catalog share.

Some modules state what the others compute in numbers alone, without their definitions: `LogBytes`
the bytes of the log, `DayNumbers` the numbers of dates, `JoinMeaning` the pairs of a join, and the
last parts of `NullMasks` and `Durability` what a scan and a replay give.

Ghost fields named `chains`, `origins`, `history`, `stories` and `logs` say which record stands
where, what happened so far and what each transaction did; no executable statement depends on them.
Some definitions are wrapped in others that carry a counter with the default `CLOSED`; `Versions`
says why.

What the code does differently from what one would expect is stated as a lemma:

- A row whose deletion was committed after the start of a transaction can still be deleted or
  updated by it. That brings the old data back for everybody who saw the deletion, and a rollback
  brings the row back to life. Snapshot isolation holds throughout a run if and only if no such
  write is accepted (`Snapshot.CleanExactlyRefines`, `Versions.TouchedReads`,
  `Versions.TouchedRevertsIffLive`); a history that ends with the revived row is
  `Atomicity.RollbackRevivesDeletedRow`.
- A transaction may overwrite what was updated and committed since it began: a write is refused only
  if somebody who is still running has written the row (`Reference.WriteAcceptedExactly`,
  `Refusals.UpdateAfterCommit`).
- An update that leaves a row its key can be refused, because an old version of the row that the
  transaction does not see past has the same key (`KeyAcceptance.KeptKeyRefused`;
  `KeyAcceptance.KeptKeysExactly` says when).
- Delete and update assert that the position of a row within its chunk is not below the start of the
  chunk, which holds exactly in the first chunk (`DataTable.DataTable.AssertionHoldsExactly`). The
  repository builds with assertions (CMakeLists.txt:12); then no row behind the first chunk can be
  deleted or updated. A table of the model is built with or without them.
- A row read through an old version goes out with its position in the chunk, not in the table. All
  identifiers are right if and only if no row behind the first chunk is read so
  (`RowIdentifiers.RightIdsExactly`). With assertions they are right in every state of every run
  (`Database.Database.IdentifiersAreRight`, `RowIdentifiers.RunHasNoOldData`); a run without
  assertions that gives out a wrong one is `RowIdentifiers.WrongIdentifier`.
- A NULL in a row read through an old version goes out without its null bit. The null masks are
  right if and only if no such row holds a NULL (`NullMasks.RightNullsExactly`);
  `NullMasks.LostNull` is a run, with assertions.
- A key of a row whose deletion was committed can be taken by another row while somebody who does
  not see the deletion may still write the old one, and a rollback brings its key back. Uniqueness
  holds throughout a run if and only if no such write brings back a key in use
  (`Uniqueness.UniqueExactly`); a run that ends with the same key twice is `KeyReuse.KeyIsRevived`.
- Retired undo memory waits for queries up to and including the number at its unlinking, although
  the query with that very number cannot hold it; it is late exactly then
  (`QueryMemory.LateExactly`).
- When one of several indexes refuses an update, the ones before it keep the new keys
  (`SeveralIndexes.RevertedExactly` says when nothing stays); when one refuses an append, the others
  are restored unless a NULL stands among their keys, where a null pointer is followed
  (`SeveralIndexes.AppendKeys`).
- The keys of an update are compared with the bytes that the vector holds in the place of a NULL, so
  that keys with a NULL can be refused as duplicates (`UniqueTable.NullsClashExactly`).
- Removing the root of an index tree leaves a stale parent pointer, which no caller meets
  (`UniqueIndex.SpliceIsTree`, `UniqueIndex.OneChildStale`).
- `catalog_entry->parent->child` is repaired on cleanup but the other direction is not; that is
  right exactly for the oldest version (`CatalogSet.CleanupOnlyOfOldest`).
- A log entry without payload would end the replay (`WriteAheadLog.EmptyPayloadStopsReplay`); the
  code never writes one (`LogRecords.EntriesAreWritable`).
- February 29 of a leap year before year 1 is accepted in the wrong years and becomes March 1
  (`Date.OldLeapDayIsMarch`).
- A constant after a column confuses the side of a join operand (`Join.ConstantsConfuseSides`), and
  a comparison can then be placed where its columns do not exist (`Join.MisplacedComparison`). The
  rewritten plan can be resolved if and only if every comparison lands where both operands can be
  evaluated (`JoinBinding.ResolvableIffPlaceable`), and then the join means what it should. An OR
  disappears, and pairs come through that it is false of (`Join.DisjunctionIsDropped`).

## Model

| member | source | states |
|---|---|---|
| Snapshot.SnapshotIsolation | lib/Storage/DataTable.cc:389-428 | after every clean history the chain walk of any running transaction, for any row or name, gives its own last write or else the value committed when it started |
| Snapshot.RunRefines | lib/Transaction/Transaction.cc:16-53 | over every clean run the chains refine a machine without chains: same committed contents, same reads, and a transaction owns a chain exactly when it has written the key |
| Snapshot.CleanExactlyRefines | lib/Storage/DataTable.cc:243-261 | the code follows the reference machine at every step of a run if and only if nobody has written a row whose deletion by another transaction was committed |
| Reference.AcceptsExactly | lib/Transaction/TransactionManager.cc:27-75 | after every clean history the engine accepts an event if and only if a machine does that has no lists and no chains: it counts start times, commits and queries up to 2^32 and 2^64, and knows who is running and what each of them has written |
| Reference.WriteAcceptedExactly | lib/Storage/DataTable.cc:249-256 | a write is accepted if and only if its transaction is running and no other running one has written the key |
| Reference.CleanIsPolite | lib/Storage/DataTable.cc:243-261 | whether a history is clean can be told from the reference machine alone |
| Mvcc.ApplyKeepsInv | lib/Transaction/TransactionManager.cc:27-159 | every event keeps: start times and commit ids distinct and below all transaction ids, lists in order, chains of one owner's uncommitted records over non-increasing commit ids, each stamp still listed |
| Mvcc.RunKeepsInv | lib/Transaction/TransactionManager.cc:27-159 | the invariant holds in every reachable state |
| Atomicity.CommitHiddenFromRunning | lib/Transaction/TransactionManager.cc:50-63 | a commit, with all the cleanup it sets off, changes no read of a transaction that is running |
| Atomicity.CommitAppearsWhole | lib/Transaction/UndoBuffer.cc:191-210 | in clean histories everything a transaction wrote is read, with its last value, by all who start after its commit, until a later commit overwrites it or the reader itself does |
| Atomicity.RollbackRestores | lib/Transaction/UndoBuffer.cc:231-262 | whatever others do in between, after a rollback a row is what it was before the first write, its chain a prefix of the old one (others may have cleaned up) |
| Atomicity.RollbackRevivesDeletedRow | lib/Storage/StorageChunk.cc:35-51 | a history of seven events after which a row is deleted and committed, and a running transaction may write it; after its rollback the row is committed again |
| Atomicity.CollectIsInvisible | lib/Transaction/TransactionManager.cc:107-142 | garbage collection changes no read of any running or future transaction and no committed value |
| QueryMemory.NoQueryHoldsFreedMemory | lib/Transaction/TransactionManager.cc:143-158 | over every run, no running query has seen linked a transaction whose undo memory has been freed |
| QueryMemory.FinishFreesAllFreeable | lib/Transaction/TransactionManager.cc:143-153 | over every run, whatever is still waiting after a commit or rollback is blocked by the code's own test: stopping at the first blocked entry of the queue misses none that passes it |
| QueryMemory.HoldersAreExactlyOlder | lib/Transaction/TransactionManager.cc:94-129 | over every run, a running query has seen a retired transaction linked if and only if its number is below the one noted at the unlinking |
| QueryMemory.HeldExactly | lib/Transaction/TransactionManager.cc:143-153 | a retired transaction is really held by some running query if and only if the lowest query is below the number noted |
| QueryMemory.LateExactly | lib/Transaction/TransactionManager.cc:148-152 | what waits after a commit or rollback without being held is exactly what has noted the number of the lowest running query |
| QueryMemory.FreedLate | lib/Transaction/TransactionManager.cc:148-152 | a history after which a retired transaction that nobody holds still waits |
| Leftovers.RunKeepsNothingOld | lib/Transaction/TransactionManager.cc:107-158 | in every reachable state an undo record of a committed transaction is still linked, or the transaction still listed, only if somebody is running who began before that commit |
| Leftovers.NothingIsKept | lib/Transaction/TransactionManager.cc:107-158 | when nobody is running all chains and all lists are empty |
| Versions.RevertRestores | lib/Transaction/UndoBuffer.cc:231-262 | undoing any number of a transaction's writes to a row gives back the cell as it was |
| Versions.TouchedRevertsIffLive | lib/Storage/DataTable.cc:243-261 | a write as the code does it, undone, restores the row if and only if the row was live |
| Versions.TouchedReads | lib/Storage/DataTable.cc:243-261 | a write as the code does it changes the reads of exactly those others who read the row as it was on top and found it deleted: they get the old data |
| Versions.RestampReads | lib/Transaction/UndoBuffer.cc:204-207 | restamping hides from whoever sees neither the old stamp nor the new one |
| Versions.PurgeReads | lib/Transaction/TransactionManager.cc:111-124 | dropping the records below a floor changes no read of anybody who started at or after it |
| TableStorage.Storage.PushInserted | lib/Transaction/Transaction.cc:16-29 | a new slot is a cell that did not exist before; all other cells stay |
| TableStorage.Storage.PushTuple | lib/Transaction/Transaction.cc:31-53 | of any row, live or deleted: the new record becomes the head, holds the row's data and forgets whether the row was deleted, the old head points back to it; all other cells stay |
| TableStorage.ChainPush | lib/Transaction/Transaction.cc:39-49 | pushing keeps the chain a doubly linked list whose head knows chunk and slot |
| TableStorage.Storage.Undo | lib/Storage/StorageChunk.cc:35-51 | puts back data, deleted flag and head: the cell loses exactly its newest overwrite |
| TableStorage.ChainPop | lib/Storage/StorageChunk.cc:46-50 | the next record becomes a proper head |
| TableStorage.Storage.CleanupHead | lib/Storage/StorageChunk.cc:26-33 | unlinking the head keeps the base row and the rest of the chain |
| TableStorage.Storage.UnlinkInner | lib/Transaction/UndoBuffer.cc:48-56 | unlinking an inner record joins its neighbours in both directions |
| TableStorage.Storage.Cleanup | lib/Transaction/UndoBuffer.cc:42-56 | either way exactly the one record leaves its chain |
| TableStorage.ChainUnlink | lib/Transaction/UndoBuffer.cc:48-56 | the chain without the record is a well-formed chain again, with the undo values in order |
| TableStorage.Storage.StoreColumns | lib/Storage/DataTable.cc:319-349 | column by column over all rows equals row by row over all columns, the last values winning for a row that comes several times; rows not named stay, deleted rows stay deleted |
| TableStorage.AssignedHolds | lib/Storage/DataTable.cc:319-349 | after an assignment each named column holds the last value assigned to it and the others are unchanged |
| TableStorage.Storage.Read | lib/Storage/DataTable.cc:389-428 | the loop over the chain finds the version that the specification of visibility picks, and says whether it is the base row |
| UndoBuffer.LastOwnedIsHead | lib/Storage/StorageChunk.cc:37 | the record that the reverse replay reaches is always the head of its chain, so the assertion holds and the unlink branch of rollback is never taken |
| UndoBuffer.Rollback | lib/Transaction/UndoBuffer.cc:231-262 | the replay reverts every chain of the storage at once and touches no record of anybody else |
| UndoBuffer.FirstOwnedIsOldest | lib/Transaction/UndoBuffer.cc:26-62 | when nothing older is left, the record that cleanup reaches is the oldest of its chain |
| UndoBuffer.Cleanup | lib/Transaction/UndoBuffer.cc:26-62 | the loop purges every chain at once and touches no record of anybody else |
| UndoBuffer.FindSlot | lib/Transaction/UndoBuffer.cc:124-139 | walking towards the head from any record of a chain finds the slot of the row |
| UndoBuffer.InsertedRow | lib/Transaction/UndoBuffer.cc:163-188 | the logged values of an insertion are those at insertion, even after later updates and deletes |
| UndoBuffer.WriteTuple | lib/Transaction/UndoBuffer.cc:112-189 | log and waiting chunks together grow by exactly what the record says, for every table |
| UndoBuffer.FlushAppends | lib/Transaction/UndoBuffer.cc:94-110 | the waiting rows of each table go to the log, in order, in chunks of 1 to 1024 |
| UndoBuffer.Commit | lib/Transaction/UndoBuffer.cc:191-229 | stamps exactly the transaction's records, and for each table the log holds its insertions and queries in their order, in chunks of 1 to 1024, with one flush at the end |
| Engine.Engine.StartTransaction | lib/Transaction/TransactionManager.cc:27-48 | is the begin event; refused exactly when the clock has run out |
| Engine.Engine.BeginQuery | lib/Core/Connection.cc:93-94 | is the event that gives the running query its number |
| Engine.Engine.EndQuery | lib/Core/Connection.cc:97-98 | is the event that ends the query |
| Engine.Engine.CheckConflict | lib/Storage/DataTable.cc:249-256 | a conflict is exactly an uncommitted version of somebody else on top |
| Engine.Engine.Delete | lib/Storage/DataTable.cc:243-261 | of any rows, deleted ones and repeated ones included: deletes those before the first conflict, each as one event, and reports whether that was all of them; after a clean history it was if and only if no other running transaction has written one of them |
| Engine.Engine.Update | lib/Storage/DataTable.cc:303-349 | of any rows: without conflict every live row gets the last of its new values and a deleted one stays deleted; at a conflict the rows before it are only touched, none is changed; after a clean history there is a conflict if and only if another running transaction has written one of them |
| Engine.StopsExactly | lib/Storage/DataTable.cc:243-261 | the rows before the first refused one are those before the first that another running transaction has written |
| Refusals.UpdateAfterCommit | lib/Storage/DataTable.cc:303-349 | on any database: of two running transactions one updates a row and commits, and the update of that row by the other one is done all the same |
| Engine.UpdateRewrites | lib/Storage/DataTable.cc:303-349 | touching all rows first and storing the columns afterwards comes to the same state as writing each row with its new values |
| Engine.ErasesTakeEffect | lib/Storage/DataTable.cc:243-261 | after the events of a delete exactly the rows named are the transaction's own and gone, however often each is named, with an old version underneath; all other rows and the rest of the state stay |
| Engine.Engine.Append | lib/Storage/DataTable.cc:170-215 | the rows become new slots in order, one write event each, and are told as insertions of this transaction alone |
| Engine.Engine.RecordQuery | lib/Transaction/Transaction.cc:55-59 | the statement joins what the transaction will log, in its place between the insertions |
| Engine.Engine.ReadRow | lib/Storage/DataTable.cc:389-428 | a running transaction reads its visible version |
| Engine.Engine.Commit | lib/Transaction/TransactionManager.cc:50-63 | is exactly the commit event, the log tells exactly what the transaction inserted and asked for, and every slot stays with its table |
| Engine.Engine.Rollback | lib/Transaction/TransactionManager.cc:65-75 | is exactly the rollback event, and every slot stays with its table |
| Engine.Engine.LowestOthers | lib/Transaction/TransactionManager.cc:79-92 | the loop finds the minimum start time and query number over the other transactions |
| Engine.Engine.CleanupExpired | lib/Transaction/TransactionManager.cc:107-142 | cleaning up transaction by transaction in commit order equals purging every row below the lowest start time at once |
| Engine.Engine.FreeOld | lib/Transaction/TransactionManager.cc:143-158 | frees the longest front of the queue that no running query blocks |
| Engine.Engine.RemoveTransaction | lib/Transaction/TransactionManager.cc:77-159 | is unlisting followed by collection, with every remaining undo buffer still its owner's |
| Removal.NothingBelow | lib/Transaction/TransactionManager.cc:107-136 | when its turn comes, no record is older than those of the transaction to clean up |
| Removal.CleanedUpTo | lib/Transaction/TransactionManager.cc:131-136 | after the last transaction below the floor no stamp below the floor is left |
| DataTable.RowsAt | lib/Storage/DataTable.cc:54-67 | chunk start plus entry is the number of a row, in every table of contiguous chunks full but for the last |
| DataTable.DataTable.GetChunk | lib/Storage/DataTable.cc:54-67 | finds the one chunk that has the row, and none exactly when the number is out of range |
| DataTable.DataTable.Append | lib/Storage/DataTable.cc:168-215 | fills the last chunk, starts a new one if needed, keeps the chunks contiguous and full, numbers the rows in order, and gives no slot to another table |
| DataTable.DataTable.Delete | lib/Storage/DataTable.cc:220-263 | out of range, failed assertion, conflict or done; an assertion fails exactly in a build with assertions and behind the first chunk, and then nothing is written; otherwise the events are those of exactly the rows before the first conflict, live or deleted |
| DataTable.DataTable.Update | lib/Storage/DataTable.cc:265-349 | out of range, failed assertion, conflict or done, in the same way, with all rows updated or the rows before the conflict touched, live or deleted |
| DataTable.DataTable.AssertionHoldsExactly | lib/Storage/DataTable.cc:245-248 | the assertion on the position of a row holds if and only if the row is of the first chunk |
| DataTable.DataTable.OutcomeExactly | lib/Storage/DataTable.cc:220-263 | after a clean history the outcome is decided by the assertion and by whether another running transaction has written one of the rows |
| DataTable.DataTable.ScanWindow | lib/Storage/DataTable.cc:369-482 | sifting, chasing versions and fetching from the base table together emit the visible version of each row of the window once, with the null bits of base rows and without those of old versions |
| DataTable.DataTable.Scan | lib/Storage/DataTable.cc:359-494 | one call emits the visible rows of a run of consecutive rows, at most 1024, and an empty result means that the table is at its end |
| DataTable.DataTable.WindowsAreVectors | lib/Storage/DataTable.cc:483-494 | a scan goes on by 1024 rows, through chunks of any number, and takes fewer at the end of the table only |
| DataTable.DataTable.ScanAll | lib/Storage/DataTable.cc:359-494 | scanning to the end terminates and gives every row that the transaction sees, once, and no other; after a clean history these are the rows of its snapshot |
| DataTable.ScanReadsSnapshot | lib/Storage/DataTable.cc:389-428 | what the version walk emits for any rows is what the reference machine's view of the transaction contains |
| DataTable.SlotsListed | lib/Storage/DataTable.cc:177-179 | the slots of a table are exactly those inserted into it, in order of insertion |
| RowIdentifiers.RightIdsExactly | lib/Storage/DataTable.cc:436 | all identifiers that a scan gives out are the numbers of their rows if and only if no row behind the first chunk is read from an old version |
| RowIdentifiers.WrongIdentifier | lib/Storage/DataTable.cc:436 | a run of the engine built without assertions: 10241 rows are appended and committed, another transaction updates the last one, and the scan of a third gives it the identifier 0 |
| RowIdentifiers.RunHasNoOldData | lib/Storage/DataTable.cc:304-317 | over every history that overwrites some rows only with their insertion, no version of these rows below the newest holds data |
| RowIdentifiers.SparedIdsAreRight | lib/Storage/DataTable.cc:436 | if that is so of all rows behind the first chunk, all identifiers are right |
| NullMasks.RightNullsExactly | lib/Storage/DataTable.cc:440-478 | every row goes out with exactly its NULLs marked if and only if no row read from an old version holds a NULL |
| NullMasks.LostNull | lib/Storage/DataTable.cc:440-448 | a run of the engine with assertions: a row with a NULL is being updated by one transaction, and goes out to another without its null bit |
| NullMasks.ScanInNumbers | lib/Storage/DataTable.cc:359-494 | a scan gives out exactly: for a row whose newest version the reader sees, its number with a bit for each value -2147483648 and no other bit; for any other row that it sees, the old version with the row's place among the 10240 of its chunk and no bit |
| Database.Database.FillAndScan | lib/Storage/DataTable.cc:359-494 | one transaction fills two tables among any others and commits, another starts and scans one of them: it gets exactly the rows committed before and all the new ones, from any state of the database |
| Database.Database.Commit | lib/Transaction/TransactionManager.cc:50-63 | keeps every table of the database whole and the keys of every indexed table apart, and gives a log that tells for each table exactly the story of the transaction, with one flush at the end |
| Database.Database.Rollback | lib/Transaction/TransactionManager.cc:65-75 | the same for a rollback |
| Database.Database.Append | lib/Storage/DataTable.cc:168-215 | the new rows go to one table; every other table, indexed or not, keeps its rows and its keys apart |
| Database.Database.Delete | lib/Storage/DataTable.cc:220-263 | the same for a delete of live rows, done if and only if no assertion fails and no other running transaction has written one of them |
| Database.Database.Update | lib/Storage/DataTable.cc:265-349 | the same for an update of live rows |
| Database.Database.AppendIndexed | lib/Storage/DataTable.cc:149-215 | accepted exactly when the index accepts all keys, and then the rows are appended; all other tables are kept |
| Database.Database.UpdateIndexed | lib/Storage/DataTable.cc:292-318 | in all outcomes the events are those of the outcome; a violation exactly if a key column is updated and the new keys are not accepted; otherwise an assertion fails exactly behind the first chunk of a table built with assertions, and a conflict is that of the reference machine; all other tables are kept |
| Database.Database.DeleteIndexed | lib/Storage/DataTable.cc:220-263 | a delete of live rows of an indexed table; all other tables are kept |
| Database.Database.IdentifiersAreRight | lib/Storage/DataTable.cc:436 | at any time, whatever calls came before, every scan of a table built with assertions gives out the right identifiers |
| Database.Database.Scan | lib/Storage/DataTable.cc:359-494 | at any time a scan of any table gives exactly the rows of the transaction's snapshot with its own writes |
| Database.Database.RowsAreUnique | lib/Storage/UniqueIndex.cc:35-118 | at any time no two rows of an indexed table have the same non-null key, neither as they stand nor as committed |
| Inserts.Filled | lib/Transaction/TransactionManager.cc:27-63 | of any history: what a transaction wrote into two sets of new slots is, after its commit, the difference that the next transaction's snapshot shows |
| Projection.RunIn | lib/Transaction/TransactionManager.cc:27-159 | after any history the chains of some of the keys, and all transaction lists, are what the events concerning those keys alone lead to |
| RowsAndNames.Instance.Commit | lib/Transaction/UndoBuffer.cc:191-229 | rows and names are committed with one time stamp as one event of one history; what the rows' side takes off the list is what the catalog cleans up; the log tells exactly the story of the transaction |
| RowsAndNames.Instance.Rollback | lib/Transaction/UndoBuffer.cc:231-262 | rows and names are rolled back as one event of one history |
| RowsAndNames.Instance.Create | lib/Catalog/CatalogSet.cc:8-52 | refused, in conflict or accepted by the state of the name in the one history, and a write event of it exactly when accepted |
| RowsAndNames.Instance.Get | lib/Catalog/CatalogSet.cc:118-144 | a lookup reads the name in the transaction's view of the one history |
| RowsAndNames.Instance.ReadRow | lib/Storage/DataTable.cc:389-428 | a row is read in the same view |
| RowsAndNames.Instance.CommittedTogether | lib/Transaction/TransactionManager.cc:50-63 | whoever started after a commit finds on the chains of the rows and among the versions of the names everything that it wrote, both together, until it is written again |
| CatalogSet.CatalogSet.CreateEntry | lib/Catalog/CatalogSet.cc:8-52 | conflict, refusal or a new version on top, by the state of the name; no other name changes, and the replaced version goes to this transaction's buffer only |
| CatalogSet.CatalogSet.DropEntry | lib/Catalog/CatalogSet.cc:54-89 | conflict, nothing to do, or a deleted version on top of a live one |
| CatalogSet.CatalogSet.EntryExists | lib/Catalog/CatalogSet.cc:91-116 | true exactly when the visible version of the name is live |
| CatalogSet.CatalogSet.GetEntry | lib/Catalog/CatalogSet.cc:118-144 | the walk down the versions finds the visible one |
| CatalogSet.CatalogSet.CreatesAndDropsAlternate | lib/Catalog/CatalogSet.cc:32-36 | creating only ever lands on a deleted version and dropping on a live one, so the versions of every name alternate |
| CatalogSet.CatalogSet.Undo | lib/Catalog/CatalogSet.cc:146-165 | of the second version of a name: it becomes the current one, nothing else changes |
| CatalogSet.LastReplacedIsSecond | lib/Catalog/CatalogSet.cc:152-158 | the version that rollback reaches always lies right below the current one, so the branch with a grandparent is never taken |
| CatalogSet.CleanupOnlyOfOldest | lib/Transaction/UndoBuffer.cc:36-41 | forgetting a version as the code does keeps the list well linked if and only if it is the oldest |
| CatalogSet.FirstReplacedIsOldest | lib/Transaction/UndoBuffer.cc:26-41 | the version that cleanup reaches is the oldest of its name |
| CatalogSet.CatalogSet.Rollback | lib/Transaction/UndoBuffer.cc:231-239 | undoing newest first reverts every name at once and keeps everybody else's buffer |
| CatalogSet.CatalogSet.CleanupAll | lib/Transaction/UndoBuffer.cc:26-41 | the loop purges every name at once and keeps everybody else's buffer |
| CatalogSet.CatalogSet.Commit | lib/Transaction/UndoBuffer.cc:191-200 | the parent of each replaced version gets the commit id: every name is restamped at once |
| Catalog.Catalog.Get | lib/Catalog/CatalogSet.cc:118-144 | over all sequences of calls a lookup gives the transaction's own last create or drop of the name, or else what was committed when it started |
| Catalog.Catalog.Create | lib/Catalog/CatalogSet.cc:8-52 | in conflict if and only if another running transaction has written the name, refused if and only if it is in use otherwise; exactly a write event when it is accepted, and no event otherwise |
| Catalog.Catalog.Drop | lib/Catalog/CatalogSet.cc:54-89 | in conflict if and only if another running transaction has written the name; a write event exactly when it is accepted and the name is live |
| Catalog.Catalog.Commit | lib/Transaction/UndoBuffer.cc:191-200 | given the manager's next time stamp and the transactions that have expired, with the cleanup it sets off it is exactly the commit event |
| Catalog.Catalog.Rollback | lib/Transaction/UndoBuffer.cc:231-239 | given the transactions that have expired, with the cleanup it sets off it is exactly the rollback event |
| Catalog.Catalog.CleanupExpired | lib/Transaction/TransactionManager.cc:107-142 | cleaning up transaction by transaction leaves every name as one purge below the lowest start time does |
| Uniqueness.KeysAreUnique | lib/Storage/UniqueIndex.cc:35-118 | after any sequence of indexed appends, key updates, other updates, deletes, writes of deleted rows, commits, rollbacks and writes to other tables in which no write brings back a key in use, no two rows of the table have the same non-null key, neither as they stand nor as committed |
| Uniqueness.NextKeepsUnique | lib/Storage/UniqueIndex.cc:35-118 | every such step, of this table or another, keeps uniqueness of the table's current and committed keys, and a node for every key any version of its rows has; a write of a deleted row does if its key is not in use |
| Uniqueness.AgainKeepsUniqueExactly | lib/Storage/DataTable.cc:243-261 | a write of a row whose deletion was committed keeps uniqueness if and only if no other row has its old key as committed or, unless it is the writer's own, as it stands |
| Uniqueness.UniqueExactly | lib/Storage/UniqueIndex.cc:35-118 | uniqueness holds after every step of a run if and only if no write of the run brings back a key in use |
| KeyReuse.KeyIsRevived | lib/Storage/UniqueIndex.cc:53-60 | a run of nine steps after which two committed rows of a table have the same key |
| Uniqueness.FreeIsApart | lib/Storage/UniqueIndex.cc:53-110 | a key that passes the check against a row is neither the row's current key nor, unless the row is the writer's own, its committed key |
| Uniqueness.CommittedIsHidden | lib/Storage/UniqueIndex.cc:78-109 | the key that a rollback by somebody else would bring back is among the versions that the check looks at |
| IndexTree.CompareOrders | lib/Common/Types/Tuple.cc:266-290 | the comparison of keys is antisymmetric and 0 only for equal keys |
| IndexTree.CompareIsOfBytes | lib/Common/Types/Tuple.cc:266-290 | the order of the tree is that of the keys' bytes in memory, as one comparison of all bytes finds it, for all keys that fit their columns |
| IndexTree.GreaterOnTheLeft | lib/Storage/UniqueIndex.cc:120-141 | on the left of a node stand the keys with greater bytes, on its right the others |
| IndexTree.InsertKeepsOrder | lib/Storage/UniqueIndex.cc:120-141 | greater nodes stay strictly to the left of a node and the rest to its right |
| IndexTree.DescentMeetsEqualKeys | lib/Storage/UniqueIndex.cc:34-129 | the path of a descent meets every node with the key |
| IndexTree.PruneUndoesInsert | lib/Storage/UniqueIndex.cc:172-180 | cutting off the node just added gives the previous tree |
| IndexTree.BeheadKeepsOrder | lib/Storage/UniqueIndex.cc:144-170 | removing the root keeps the order |
| IndexTree.BeheadKeepsNodes | lib/Storage/UniqueIndex.cc:144-170 | removing the root keeps all other nodes, each once |
| IndexTree.BeheadKeepsEntries | lib/Storage/UniqueIndex.cc:144-170 | removing the root removes exactly its entry |
| UniqueIndex.KeyMatches | lib/Common/Types/Tuple.cc:321-343 | the comparison stops early and says whether the row's key columns hold exactly the key |
| UniqueIndex.VersionsHave | lib/Storage/UniqueIndex.cc:75-110 | the loop finds the key if and only if a version that the transaction does not see past has it |
| UniqueIndex.UniqueIndex.CheckNode | lib/Storage/UniqueIndex.cc:38-118 | a node blocks exactly when its row, not ignored, is live with the key, or a hidden version has it |
| UniqueIndex.UniqueIndex.Descend | lib/Storage/UniqueIndex.cc:31-129 | the descent reports a free key exactly when no node with the key blocks, and ends where the new node belongs |
| UniqueIndex.UniqueIndex.AddEntry | lib/Storage/UniqueIndex.cc:21-141 | adds exactly one node, in place, if and only if the key is free; otherwise nothing changes |
| UniqueIndex.UniqueIndex.RemoveEntry | lib/Storage/UniqueIndex.cc:143-186 | removes exactly the node, when it is the root or has no children; the pointers are whole again exactly in the second case |
| UniqueIndex.UniqueIndex.SpliceRoot | lib/Storage/UniqueIndex.cc:147-162 | the pointer surgery with two children does what the tree operation says |
| UniqueIndex.SpliceIsTree | lib/Storage/UniqueIndex.cc:147-162 | after it the nodes are linked as the tree without its root, with the old left child on top and its parent pointer stale |
| UniqueIndex.OneChildStale | lib/Storage/UniqueIndex.cc:163-170 | with one child the new root is linked but its parent pointer is stale |
| UniqueIndex.UniqueIndex.TakeBack | lib/Storage/UniqueIndex.cc:224-230 | removing the added nodes in reverse meets only leaves (or a lone root), never the unhandled case, and gives back the tree of the beginning |
| UniqueIndex.UniqueIndex.AddEntries | lib/Storage/UniqueIndex.cc:188-236 | all keys get in, or none and the tree, root and node links are as before; accepted exactly when each key is free or an allowed null |
| KeyAcceptance.KeyFreeExactly | lib/Storage/UniqueIndex.cc:31-129 | a key is free if and only if no row of the table holds it as it stands, unless it is about to be overwritten, and no version of any row does that the transaction does not see past |
| KeyAcceptance.KeyOfRow | lib/Common/Types/Tuple.cc:184-195 | a row has no key exactly if one of the key columns is -2147483648, which stands for NULL, or is missing; otherwise its key is the values of these columns |
| KeyAcceptance.AppendAcceptedExactly | lib/Storage/UniqueIndex.cc:188-236 | new rows are accepted if and only if each of their keys is free in that sense, or has a NULL and the index allows it |
| KeyAcceptance.UpdateAcceptedExactly | lib/Storage/UniqueIndex.cc:345-371 | an update is no violation if and only if the copied keys all differ and each new key is accepted, the updated rows not counting as they stand |
| KeyAcceptance.KeptKeysExactly | lib/Storage/UniqueIndex.cc:53-110 | an update that leaves every row its key is no violation if and only if no version that the transaction does not see past holds one of the keys |
| KeyAcceptance.UpdateKeepingKeys | lib/Storage/DataTable.cc:292-318 | in particular it is none if the transaction sees the newest version of every row |
| KeyAcceptance.KeptKeyRefused | lib/Storage/UniqueIndex.cc:75-110 | on any indexed table: of two running transactions one updates a row outside its key and commits; when the other one sets a key column of the row to the value that it has, this is a violation |
| KeyAcceptance.RowsDiffer | lib/Storage/UniqueIndex.cc:35-118 | any two rows without a NULL in the key differ in a key column, as they stand and as committed |
| SeveralIndexes.AppendKeys | lib/Storage/UniqueIndex.cc:238-289 | new rows of a table with any number of indexes: all take the keys exactly when each accepts its own; on the first refusal all trees are as before if and only if no earlier index skipped a NULL, and a null pointer is followed otherwise |
| SeveralIndexes.Revert | lib/Storage/UniqueIndex.cc:274-286 | the reverting loops give back all trees, or change nothing if they are told to remove none |
| SeveralIndexes.UpdateKeysOfAll | lib/Storage/UniqueIndex.cc:291-385 | an update passes exactly when every affected index accepts its keys; on a refusal the indexes before it keep what they have taken |
| SeveralIndexes.UnaffectedPasses | lib/Storage/UniqueIndex.cc:314-331 | an index of which no column is updated is not asked, and takes nothing |
| SeveralIndexes.RevertedExactly | lib/Storage/UniqueIndex.cc:372-381 | after a refused update all indexes are as before if and only if each one before the refusing index is unaffected or took NULLs only |
| UniqueTable.Append | lib/Storage/DataTable.cc:149-215 | indexed append is exactly one keyed step of the uniqueness machine, accepted exactly when the index accepts all keys; otherwise nothing changes; the keys of the table stay apart |
| UniqueTable.UpdateRows | lib/Storage/DataTable.cc:292-318 | an indexed update, in all its outcomes, is made of steps of the uniqueness machine; a violation changes nothing, a failed assertion leaves the new keys in the tree and the rows as they were; the keys of the table stay apart |
| UniqueTable.SerializeUpdate | lib/Common/Types/Tuple.cc:135-182 | the keys built column by column, from the vectors of the update where there are any and from the base rows where not, are those of the updated rows as the vectors hold them, and a key is marked exactly when the new row has a NULL in it |
| UniqueTable.NullsClashExactly | lib/Storage/UniqueIndex.cc:345-359 | the copied keys are all different if and only if the keys without NULL are and what stands in the place of a NULL makes no key look like another |
| UniqueTable.HasDuplicates | lib/Storage/UniqueIndex.cc:345-359 | reports duplicates exactly when two of the new keys, as they were copied, are equal |
| UniqueTable.AddKeys | lib/Storage/UniqueIndex.cc:361-385 | new keys get nodes if and only if the copied batch is free of duplicates and the keys are free of conflicts, the updated rows' own keys being ignored |
| UniqueTable.Delete | lib/Storage/DataTable.cc:243-261 | a delete, complete or stopped at a conflict, is one step of the uniqueness machine |
| UniqueTable.EventKeepsGood | lib/Transaction/TransactionManager.cc:27-75 | begin, commit, rollback and query events are steps of the uniqueness machine, and keep the keys of the table apart |
| UniqueTable.ForeignKeepsGood | lib/Storage/DataTable.cc:168-215 | writes to the rows of other tables are steps that keep the keys of this table apart |
| UniqueTable.RowsAreUnique | lib/Storage/UniqueIndex.cc:35-118 | no two rows of the concrete table have the same non-null key, neither as they stand nor as committed |
| UniqueTable.NewIndexIsGood | lib/Storage/UniqueIndex.cc:11-19 | a new index over an empty table is where it all begins |
| WriteAheadLog.CrashReplay | lib/Storage/WriteAheadLog.cc:34-86 | replaying any byte prefix of any log applies exactly the groups whose flush marker lies wholly in the prefix, in order |
| WriteAheadLog.FullReplay | lib/Storage/WriteAheadLog.cc:34-86 | reading undoes writing: the whole log replays to all groups in order |
| WriteAheadLog.Replay | lib/Storage/WriteAheadLog.cc:34-86 | the reading loop with its stored entries does what the recursive reading of the bytes says |
| WriteAheadLog.ReplayEntries | lib/Storage/WriteAheadLog.cc:47-65 | a group is applied as a whole or, when one entry fails, not at all |
| WriteAheadLog.EmptyPayloadStopsReplay | lib/Storage/WriteAheadLog.cc:23-26 | an entry of size 0, which the code never writes, would end the replay whatever follows |
| WriteAheadLog.CommitsAreDurable | lib/Storage/WriteAheadLog.cc:34-86 | after a crash at any byte a replay does exactly what the records of the commits whose flush marker is in the file say, commit by commit and record by record, read back from their bytes |
| WriteAheadLog.CrashKeepsStories | lib/Transaction/UndoBuffer.cc:191-229 | when each log tells what its transaction has inserted and asked for, a replay after a crash at any byte tells for every table exactly the stories of the first of the transactions, each of them whole |
| Durability.StoryIsLog | lib/Transaction/UndoBuffer.cc:191-229 | the log of a commit can be written as bytes when what the transaction did fits its tables |
| Durability.LoggedDatabase.Commit | lib/Transaction/TransactionManager.cc:50-63 | commits in the database and writes the log, which goes on telling exactly what the committed transactions did, in order |
| Durability.LoggedDatabase.CrashKeepsCommits | lib/Storage/WriteAheadLog.cc:34-86 | at any time, whatever calls came before: a replay after a crash at any byte of the log finds for every table what the first of the committed transactions inserted and asked for, each of them whole |
| Durability.LoggedDatabase.CrashKeepsRows | lib/Storage/WriteAheadLog.cc:34-86 | in rows and statements: a replay after a crash at any byte inserts into each table, in order, exactly the rows that the first of the committed transactions inserted, and repeats exactly their statements |
| Durability.LoggedDatabase.Insert | lib/Storage/DataTable.cc:168-215 | a transaction that appends rows to a table and commits adds exactly these rows to what the log tells |
| Serialization.ChunkRoundTrip | lib/Common/Types/DataChunk.cc:190-267 | a chunk of rows, written column by column with its types, is read back row by row as it was, for all values that fit their columns |
| Serialization.Serializer.WriteChunk | lib/Common/Types/DataChunk.cc:190-216 | the loops over columns and rows write the bytes of the chunk |
| Serialization.Deserializer.ReadDataChunk | lib/Common/Types/DataChunk.cc:218-267 | the loops read what the bytes hold, and fail exactly where bytes are missing or the code throws |
| Serialization.SignedRoundTrip | include/SummerDB/Common/Serializer.hpp:38-43 | a number in two's complement reads back exactly, in every width |
| Serialization.UnsignedRoundTrip | include/SummerDB/Common/Serializer.hpp:38-43 | a size reads back exactly, in every width |
| Serialization.MemCmpIs | lib/Common/Types/Tuple.cc:266-290 | comparing bytes is decided by the first one that differs |
| LogBytes.FourBytes | include/SummerDB/Common/Serializer.hpp:38-43 | a number of 32 bits stands with its lowest byte first |
| LogBytes.TypeWidths | include/SummerDB/Common/InternalTypes.hpp:48-64 | the types that can be logged have the numbers 2 to 6 and 8, and widths of 1, 1, 2, 4, 8 and 4 bytes |
| LogBytes.EntryBytes | lib/Storage/WriteAheadLog.cc:153-159 | an entry is the byte 5 or 6, its size in four bytes, and its data |
| LogBytes.MarkerBytes | include/SummerDB/Storage/WriteAheadLog.hpp:23-33 | the marker at the end of a commit is 100, 0, 0, 0, 0 |
| LogBytes.OneInsertion | lib/Storage/WriteAheadLog.cc:297-314 | the whole log of a commit that inserts one integer into a table a.b, byte by byte |
| LogBytes.KindsExactly | lib/Storage/WriteAheadLog.cc:67-82 | a replay remembers an entry of the kinds 1 to 6 and goes on behind it; any other kind than these and 100 ends it |
| LogBytes.FailedGroupEnds | lib/Storage/WriteAheadLog.cc:47-63 | a group with an entry that cannot be replayed leaves nothing, and ends the replay |
| LogBytes.UnknownTableFails | lib/Storage/WriteAheadLog.cc:316-340 | an insertion into a table that is not there cannot be replayed |
| LogRecords.RecordRoundTrip | lib/Storage/WriteAheadLog.cc:297-363 | a replay reads in an entry exactly the record that the commit wrote: the table by its names, its rows, or the statement |
| LogRecords.DeserializeInsert | lib/Storage/WriteAheadLog.cc:316-340 | reading the bytes of an insertion does what the reading of its fields says, and fails exactly where bytes are missing or the table is unknown |
| LogRecords.EntriesAreWritable | lib/Storage/WriteAheadLog.cc:153-159 | no record of a commit makes an entry without payload |
| WriteAheadLog.WriteAheadLog.WriteEntry | lib/Storage/WriteAheadLog.cc:153-159 | appends kind, size and payload |
| WriteAheadLog.WriteAheadLog.WriteCommit | lib/Transaction/UndoBuffer.cc:191-229 | writing the records of a commit makes the file that of one more commit: all its entries and one flush marker |
| TupleSerializer.TupleSerializer.Serialize | lib/Common/Types/Tuple.cc:100-108 | every field of the byte string is the row's slice of its column buffer, and bytes behind the row stay |
| TupleSerializer.TupleSerializer.Deserialize | lib/Common/Types/Tuple.cc:110-118 | the loop does what the field-by-field restoration says |
| TupleSerializer.TupleSerializer.RestoredSlot | lib/Common/Types/Tuple.cc:110-118 | of a column's slices exactly the row's becomes the field of the byte string |
| TupleSerializer.TupleSerializer.OtherColumnsKept | lib/Common/Types/Tuple.cc:110-118 | columns that the serializer does not have stay as they are |
| TupleSerializer.TupleSerializer.RestoreUndoes | lib/Storage/StorageChunk.cc:41-45 | saving a row and putting it back over later writes to it brings back every slice of every column |
| TupleSerializer.SameFieldsSameRow | lib/Common/Types/Tuple.cc:268-270 | comparing all bytes at once says whether all fields agree |
| TupleSerializer.TupleComparer.constructor | lib/Common/Types/Tuple.cc:292-319 | the two offsets of each key column lead to that column in the key and in the row |
| TupleSerializer.TupleComparer.Compare | lib/Common/Types/Tuple.cc:321-343 | 0 exactly when the row holds the key, wherever it keeps the columns; otherwise the first differing key column decides |
| Date.YearStartIs | lib/Common/Types/Date.cc:28-39 | the closed formula with leap years counted by divisors is the sum of the years' lengths, before and after year 0 |
| Date.FindYear | lib/Common/Types/Date.cc:41-60 | the two correcting loops end, within 32 bits, at the one year that has the day |
| Date.NumberToDate | lib/Common/Types/Date.cc:41-74 | for every 32-bit number: a date of the calendar, with its day within the month, whose day number is the number |
| Date.DateToNumber | lib/Common/Types/Date.cc:76-89 | accepts exactly the dates of the acceptance rule and gives their day number |
| Date.ConvertBack | lib/Common/Types/Date.cc:41-89 | number to date to number is the identity if and only if the year is in range and the date is no leap day before year 1 |
| Date.FromDateAndBack | lib/Common/Types/Date.cc:41-89 | date to number to date is the identity if and only if the date is no February 29 before year 1 |
| Date.AcceptedIsDate | lib/Common/Types/Date.cc:16-20 | an accepted date is a date of the calendar if and only if it is no February 29 before year 1 |
| Date.OldLeapDayIsMarch | lib/Common/Types/Date.cc:78-80 | an accepted February 29 before year 1 gets the day number of March 1 |
| Date.ConversionIsMonotonic | lib/Common/Types/Date.cc:76-89 | over years 1 to YEAR_MAX later dates get greater numbers |
| DayNumbers.NumberOfDate | lib/Common/Types/Date.cc:76-89 | which dates are accepted, month by month and year by year from -5867411 to 5867411, and the number of each: 146097 days in every 400 years, with the days of the years and months in plain arithmetic |
| DayNumbers.NumberAndBack | lib/Common/Types/Date.cc:41-89 | of all 32-bit numbers exactly these come back from their date: 366 to 2143028226, and -2143027496 to 365 unless they are leap days |
| DayNumbers.LeapDayExactly | lib/Common/Types/Date.cc:28-39 | the numbers of the leap days, by their place in the 400 years |
| Order.CompareTuple | lib/Execution/Operator/PhysicalOrder.cc:13-27 | the loop over the key columns computes the comparison |
| Order.CompareMirrors | lib/Execution/Operator/PhysicalOrder.cc:13-27 | swapping the rows negates the result, and 0 means equal keys |
| Order.CompareTransitive | lib/Execution/Operator/PhysicalOrder.cc:13-27 | the comparison is transitive, strictly where one step is strict |
| Order.CompareIsLexicographic | lib/Execution/Operator/PhysicalOrder.cc:13-27 | the first differing column decides, by its own direction |
| Order.QuicksortInitial | lib/Execution/Operator/PhysicalOrder.cc:29-45 | distributes all row numbers, each once, around row 0 |
| Order.Partition | lib/Execution/Operator/PhysicalOrder.cc:47-74 | terminates, permutes only the part, and puts the pivot between the rows not after it and the rows after it |
| Order.QuicksortInplace | lib/Execution/Operator/PhysicalOrder.cc:47-79 | sorts the part as a permutation and leaves the rest alone |
| Order.Quicksort | lib/Execution/Operator/PhysicalOrder.cc:81-89 | the result is a permutation of all row numbers; of any two rows the first column in which they differ has them in its direction |
| Join.SideBounds | lib/Planner/Operator/LogicalJoin.cc:8-34 | LEFT, RIGHT or NONE imply that an expression refers to tables of that side only, or to none |
| Join.SideExactly | lib/Planner/Operator/LogicalJoin.cc:8-34 | when exactly the children of an expression add up to LEFT or RIGHT |
| Join.ConstantsConfuseSides | lib/Planner/Operator/LogicalJoin.cc:8-34 | a column then a constant classifies as BOTH, a constant then a column does not |
| Join.ComputeJoinSide | lib/Planner/Operator/LogicalJoin.cc:8-34 | the loop over the children computes the side |
| Join.NegateAndFlip | lib/Planner/Operator/LogicalJoin.cc:36-88 | under three-valued logic the negated comparison is the negation, the flipped one has the same value, and both are their own inverses |
| Join.SplitMeansTheSame | lib/Planner/Operator/LogicalFilter.cc:8-18 | a row passes all split conjuncts exactly when the condition is true of it |
| Join.LogicalFilter.Split | lib/Planner/Operator/LogicalFilter.cc:8-18 | the recursion appends the conjuncts in order to the filter's list |
| Join.OneSidedLands | lib/Planner/Operator/LogicalJoin.cc:104-132 | a comparison with no operand that counts as both sides lands where both operands can be evaluated |
| Join.ComparisonKept | lib/Planner/Operator/LogicalJoin.cc:104-132 | wherever a comparison that lands well goes (left filter, right filter, condition as is, condition flipped), a pair joins exactly if it joined before and the comparison is true of it |
| Join.ComparisonContained | lib/Planner/Operator/LogicalJoin.cc:104-132 | after a comparison every expression of the plan can be evaluated where it stands if and only if that was so before and the comparison lands well |
| Join.ConditionContained | lib/Planner/Operator/LogicalJoin.cc:90-151 | the same for a whole condition |
| JoinBinding.ResolvableIffPlaceable | lib/Execution/ColumnBindingResolver.cc:90-104 | the rewritten plan passes the assertion of the resolver for every reference if and only if every comparison lands where both operands can be evaluated |
| Join.ConditionKept | lib/Planner/Operator/LogicalJoin.cc:90-151 | the same for a whole condition, counting the parts that the code keeps |
| Join.JoinMeansTheSame | lib/Planner/Operator/LogicalJoin.cc:90-151 | the join of the rewritten children on the rewritten conditions is the cross product restricted to the pairs of which all kept parts are true, in the same order |
| Join.GrammaticalJoin | lib/Planner/LogicalPlanGenerator.cc:387-396 | for every condition of ANDs, comparisons and negated comparisons that all land well: accepted, and the result is exactly the pairs of the cross product of which the condition is true, whether a join or a cross product comes out |
| JoinMeaning.OnColumns | lib/Execution/Operator/PhysicalNestedLoopJoin.cc:104-126 | ON a.x c b.y for each of the six comparisons: a pair joins if and only if both columns hold numbers and the left one is equal, not equal, less, greater, at most or at least the right one |
| JoinMeaning.OnColumnsFlipped | lib/Planner/Operator/LogicalJoin.cc:104-132 | the same with the columns written the other way around |
| JoinMeaning.OnNegated | lib/Planner/Operator/LogicalJoin.cc:36-57 | the same for ON NOT a.x c b.y, where NULL joins with nothing either |
| JoinMeaning.OnConstant | lib/Planner/Operator/LogicalJoin.cc:118-126 | ON a.x c k for a number k: exactly the pairs with such a left row |
| JoinMeaning.OnBoth | lib/Planner/Operator/LogicalJoin.cc:92-97 | ON e AND f: exactly the pairs that join on both |
| JoinMeaning.ComparisonValues | include/SummerDB/Common/Types/Operators.hpp:81-121 | a comparison of two numbers is 1 or 0, one with NULL is NULL |
| JoinMeaning.NegationValues | lib/Common/Types/VectorOperations.cc:346-351 | NOT of 1, 0 and NULL |
| JoinMeaning.ConjunctionValues | lib/Common/Types/VectorOperations.cc:591-625 | a conjunction is 0 if one conjunct is 0, else NULL if one is NULL, else 1 |
| JoinMeaning.DisjunctionValues | lib/Common/Types/VectorOperations.cc:627-661 | a disjunction is 1 if one disjunct is true, else NULL if one is NULL, else 0 |
| Join.DisjunctionIsDropped | lib/Planner/Operator/LogicalJoin.cc:90-151 | a concrete pair that joins although the OR is false of it |
| Join.MisplacedComparison | lib/Planner/Operator/LogicalJoin.cc:104-132 | for all tables: b.y = a.x + 1 becomes a filter of the right side, where a.x does not exist |
| Join.PlacedAllTheSame | lib/Planner/Operator/LogicalJoin.cc:8-34 | a.x + 1 = a.y has an operand that counts as both sides, and lands well |
| Join.LogicalJoin.SetJoinCondition | lib/Planner/Operator/LogicalJoin.cc:90-151 | the recursion that rewrites children and pushes conditions computes the rewriting; it fails exactly where the code throws |
| Join.RefusedExactly | lib/Planner/Operator/LogicalJoin.cc:133-151 | a condition is refused if and only if somewhere along its ANDs a NOT stands before something else than a comparison |
| Join.OuterColumnIsFiltered | lib/Planner/Operator/LogicalJoin.cc:8-34 | a column of neither side counts as none, and a comparison with it becomes a filter of the other column's side |
| NestedLoopJoin.AppendChunk | lib/Common/Types/ChunkCollection.cc:5-58 | appending a chunk appends its rows and keeps all chunks but the last full |
| NestedLoopJoin.MatchChunk | lib/Execution/Operator/PhysicalNestedLoopJoin.cc:95-144 | evaluating condition by condition over a chunk and ANDing the results selects exactly the rows that match the left row |
| NestedLoopJoin.NestedLoopJoin.Materialize | lib/Execution/Operator/PhysicalNestedLoopJoin.cc:36-58 | collecting the right side loses and repeats no row |
| NestedLoopJoin.NestedLoopJoin.GetChunk | lib/Execution/Operator/PhysicalNestedLoopJoin.cc:26-176 | each call takes the next pairs off the front of the pairs to come, at most 1024, and an empty chunk means that none are left |
| NestedLoopJoin.NestedLoopJoin.GetAll | lib/Execution/Operator/PhysicalNestedLoopJoin.cc:26-176 | pulling to the end gives all matching pairs, each once and in order |
| NestedLoopJoin.ExecuteOn | lib/Planner/LogicalPlanGenerator.cc:387-396 | from the ON condition through rewriting to the pulled result: exactly the pairs of which the condition is true |
| ColumnBinding.RowHolds | lib/Execution/Operator/PhysicalCrossProduct.cc:15-20 | in the concatenated row of a plan the columns of each table stand behind those of all tables before it |
| ColumnBinding.SecondBehindFirst | lib/Execution/Operator/PhysicalCrossProduct.cc:15-20 | of two tables side by side the columns of the second stand behind all those of the first |
| ColumnBinding.ColumnBindingResolver.AppendTables | lib/Execution/ColumnBindingResolver.cc:8-18 | the right side's tables come behind the left side's, with their offsets shifted |
| ColumnBinding.ColumnBindingResolver.Resolve | lib/Execution/ColumnBindingResolver.cc:90-104 | the index is the width of the tables before plus the column |
| ColumnBinding.ColumnBindingResolver.Visit | lib/Execution/ColumnBindingResolver.cc:20-88 | for every plan the resolved index of every reference picks its (table, column) value in the row that its operator sees, on all rows; nothing else of the plan changes |

## Left out

- Locks, spin waits and what another thread could see inside one operation: every operation is one atomic step. Commit restamps before it takes the time stamp off the clock, within the one step.
- Memory: arenas only grow, so a freed record is a record that nothing links; `QueryMemory` models who may still hold one. Transactions are values in the manager's lists.
- Chunk entries and slots are one: a slot is numbered through all tables, and `DataTable` maps chunk and entry to it. A row is a sequence of integers, with one null value; string heaps, statistics, types, NOT NULL and CHECK constraints are not modelled.
- A scan emits whole rows; the choice of columns is left out.
- Engine.Engine.Update: the code lets a transaction overwrite what was committed after its start, so nothing is claimed about the first committer.
- Database.Database.Delete: requires live rows, each once, so that the history stays clean; what happens to a deleted row is stated by `Engine.Engine.Delete`, `Snapshot.CleanExactlyRefines` and `Uniqueness.UniqueExactly`. The same for Database.Database.Update, and for the tables with an index.
- DataTable.DataTable.Delete: requires the rows to be of one chunk, as the code asserts; rows of several chunks are not modelled. After a failed assertion the program ends, which the model shows as an outcome.
- DataTable.DataTable.Update: the same.
- Engine.Engine.Commit: requires a clock below TRANSACTION_ID_START, which the code checks when a transaction starts and not when it commits.
- The commit log is that of a database with a log. Creates and drops of the catalog are not in it.
- LogRecords.RecordRoundTrip: rows of integer columns of 1, 2, 4 and 8 bytes, in which null is a number as in the base rows; strings, floating point and pointers are not modelled. A replay that meets an entry of the catalog fails in the model. A record has to fit into the 32 bits of its size.
- The single undo buffer that holds both kinds of entries is two lists here; `RowsAndNames` handles the rows of a transaction first and its names next.
- CatalogSet.CatalogSet.DropEntry: requires a name that was created at some time, as the code asserts.
- UniqueTable.Append: one index per table (and any number of tables), and distinct non-null keys within the batch, because the check of a key looks up rows of the batch before they are stored (lib/Storage/UniqueIndex.cc:41-42). SeveralIndexes.AppendKeys requires the same.
- UniqueTable.UpdateRows: one index per table, live rows of one chunk and each column updated once; keys of several indexes are stated by `SeveralIndexes`, whose trees are not put under the table again. A write of a deleted row is a step of `Uniqueness` only.
- WriteAheadLog.CrashReplay: a single crash; appending behind a torn tail is not modelled. What a record does to the database is a function that is a parameter, since logged statements run again as SQL.
- TupleSerializer.TupleComparer.Compare: on columns of constant size; strings behind pointers are not modelled.
- TupleSerializer.TupleSerializer.Serialize: a copy of bytes is one step, and variable-length keys inlined into a row are not modelled.
- Order.Quicksort: non-null integer keys; the loop that emits the sorted rows is left out because it starts from 0 in every batch (lib/Execution/Operator/PhysicalOrder.cc:148).
- Date: parsing and printing of dates are left out. ConversionIsMonotonic is stated for years from 1 on; before, the leap days above break it.
- Join.GrammaticalJoin: other shapes of conditions are dropped or misplaced by the code; `Join.ConditionKept` and `JoinBinding.ResolvableIffPlaceable` say exactly what is kept. Inner joins only, without correlated subqueries; scalar functions are a parameter.
- NestedLoopJoin.ExecuteOn: requires at least one comparison between the sides, as otherwise the plan is a cross product, whose operator is not modelled; its result is that of `Join.GrammaticalJoin`.
- ColumnBinding.ColumnBindingResolver.Visit: gets, filters, cross products and inner joins; projections, aggregates, unions, subqueries and dummy scans are left out.
- Aggregate hash table, CSV copy, parser and binder, C API, profiling: not modelled.
