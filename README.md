# Asynchronous reference indexing — a Dafny model

The TYPO3 extension `asynchronous_reference_indexing` defers reference index
updates. Records that need reindexing are queued as
`(reference_table, reference_uid, reference_workspace)` rows. The console
command `AsyncReferenceIndexCommand` drains that queue later.

This project models two parts of the extension:

- **The queue-drain worker** `updateReferenceIndex`, its lock file
  (`lock`/`unlock`) and the `execute` dispatcher.
  - The worker skips the run when the lock file exists. It returns early when
    the queue is empty.
  - Otherwise it takes the lock, announces the row count and turns the
    reference-index capture switch off. Then it walks the queue in order.
  - For each row it calls the TYPO3 reference index engine, scoped to the
    row's workspace when that workspace is non-zero and the table supports
    workspaces. It then deletes every
    queue row with that row's triple.
  - The first engine failure stops the walk. An `\Exception` is caught and
    reported as `ERROR! message (code)`, and the lock is released as on the
    success path. The catch clause names `\Exception` only, although the
    comment above the loop says every error is caught. On PHP 7 any other
    `\Throwable` (an `\Error` such as a `TypeError`) passes it. Then no
    closing line is written, the lock file stays, and every later run is
    skipped until someone removes it.
  - `execute` with `--force` bypasses all of this and runs a full index;
    `execute` returns 0 whenever it returns.
- **The exclusion listener** for `IsTableExcludedFromReferenceIndexEvent`.
  - If the event is already excluded, the listener does nothing.
  - Otherwise it reads the extension setting
    `excludeTablesFromReferenceIndexing`. When that is not empty, it splits
    the setting with `trimExplode(',', …)` and marks the event excluded when
    the event's table is one of the entries.

Modules:

- `Queue`: queue rows, and the SQL `DELETE … WHERE` as the filter `Without`.
- `Engine`: the engine as an oracle, the workspace scope, and the first failing row.
- `Decimal`: PHP's integer-to-string conversion used in the messages.
- `Command`:
  - the state the command reads and writes;
  - `Drain` and `ExecuteSpec`, which give the state after `updateReferenceIndex` and after `execute`;
  - the class `AsyncReferenceIndexCommand`, whose methods are proved against `Drain` and `ExecuteSpec`.
- `DrainProperties`: the properties of a drain run, proved about `Drain`.
- `DrainScenarios`: three concrete runs.
- `Strings`: PHP's `trim`, `explode` and `implode`, and TYPO3's `trimExplode`.
- `ExclusionListener`: the event class, the listener and its properties.

Outside collaborators become inputs:

- **The reindex engine** (`ReferenceIndex::updateRefIndexTable`). It is an
  `imap` from calls to what they throw: an `\Exception` with its message and
  code, or another `\Throwable`. A call not in its domain returns normally.
- **`BackendUtility::isTableWorkspaceEnabled`**. It is the set of
  workspace-enabled tables.
- **The queue table.** It is a snapshot sequence of rows, read in order.
- **The lock file.** It is a boolean.
- **The capture switch.** It is a boolean.
- **The console.** It is a list of written lines.
- **The extension setting.** It is a string parameter of the listener.

The command also keeps a trace of effects in order:

- taking and releasing the lock;
- turning capture off;
- each engine call and its outcome;
- each deletion;
- a full index run.

## Model

| member | source | states |
|---|---|---|
| Queue.Without | Classes/Command/AsyncReferenceIndexCommand.php:114-122 | The queue after deleting processed triples is never longer than before. |
| Queue.WithoutMembers | Classes/Command/AsyncReferenceIndexCommand.php:114-122 | After deletion a row is still queued exactly when it was queued before and its triple was not deleted. |
| Queue.WithoutStep | Classes/Command/AsyncReferenceIndexCommand.php:106-124 | Deleting one more triple after earlier deletions equals deleting the whole list of triples at once. |
| Queue.WithoutAppend | Classes/Command/AsyncReferenceIndexCommand.php:114-122 | Deletion acts on each part of a queue independently, so the order of the remaining rows is kept. |
| Queue.WithoutCovered | Classes/Command/AsyncReferenceIndexCommand.php:114-122 | Deleting the triple of every queued row empties the queue. |
| Queue.WithoutDisjoint | Classes/Command/AsyncReferenceIndexCommand.php:114-122 | Deleting triples that no row has leaves the queue unchanged. |
| Queue.WithoutPrefix | Classes/Command/AsyncReferenceIndexCommand.php:114-122 | With distinct triples, deleting the first n rows' triples leaves exactly the rows from n on, in order. |
| Queue.SuffixAvoidsPrefix | Classes/Command/AsyncReferenceIndexCommand.php:114-122 | With distinct triples, no row from position n on has the triple of a row before n. |
| Engine.ScopeFor | Classes/Command/AsyncReferenceIndexCommand.php:109-112 | The engine is scoped to the row's workspace exactly when the workspace is non-zero and the table is workspace-enabled; otherwise it uses the default scope. |
| Engine.FirstFailure | Classes/Command/AsyncReferenceIndexCommand.php:106-124 | The index where the walk stops is at most the number of rows. |
| Engine.FirstFailureSpec | Classes/Command/AsyncReferenceIndexCommand.php:106-124 | Every row before the stopping index succeeds, and the row at that index, if any, throws. |
| Engine.FirstFailureAt | Classes/Command/AsyncReferenceIndexCommand.php:106-124 | If rows 0..i-1 succeed and row i throws (or i is the end), the walk stops at i. |
| Engine.FirstFailureNext | Classes/Command/AsyncReferenceIndexCommand.php:106-124 | A row that succeeds does not stop the walk: the stopping index lies past it. |
| Engine.FirstFailureStop | Classes/Command/AsyncReferenceIndexCommand.php:106-124 | A row that throws, reached without an earlier failure, is where the walk stops. |
| Decimal.NatToString | Classes/Command/AsyncReferenceIndexCommand.php:93-95 | The count in the progress message is a non-empty string of decimal digits with no leading zero. |
| Decimal.IntToString | Classes/Command/AsyncReferenceIndexCommand.php:130 | The error code in the error message is non-empty and starts with '-' exactly when it is negative. |
| Decimal.NatToStringRoundTrip | Classes/Command/AsyncReferenceIndexCommand.php:93-95 | Reading the printed count back as decimal digits gives the count. |
| Decimal.NatToStringInjective | Classes/Command/AsyncReferenceIndexCommand.php:93-95 | Different counts print differently. |
| Command.AckedStep | Classes/Command/AsyncReferenceIndexCommand.php:106-124 | Acknowledging one more row appends that row's successful call and then its deletion. |
| Command.LoopStart | Classes/Command/AsyncReferenceIndexCommand.php:106 | Before the first iteration nothing is deleted and no effect is recorded. |
| Command.LoopAdvances | Classes/Command/AsyncReferenceIndexCommand.php:106-124 | A row that returns, reached before the first failure, is followed by more of the walk. Deleting its triple after the earlier ones is deleting the first i+1 triples, and its call and deletion extend the acknowledged effects. |
| Command.LoopStopsAt | Classes/Command/AsyncReferenceIndexCommand.php:113-133 | A row that throws, reached before any failure, is the first failure. The effects so far plus its call are the loop's effects, and what it throws is what the loop ends with. |
| Command.LoopCompletes | Classes/Command/AsyncReferenceIndexCommand.php:106-125 | When every row returns, the acknowledged effects of all rows are the loop's effects, and no failure is reported. |
| Command.DrainAfterRun | Classes/Command/AsyncReferenceIndexCommand.php:91-133 | A run past the lock and count checks ends with capture off, and only the rows before the first failure deleted. The lock stays exactly when a throwable other than an \Exception ends the loop. The count line is written, then the completion or error line unless such a throwable escaped. The effects are lock, capture off and the loop's effects, then unlock unless such a throwable escaped. |
| Command.AsyncReferenceIndexCommand.constructor | Classes/Command/AsyncReferenceIndexCommand.php:22-26 | A command starts from the given lock-file state and queue, with capture on and nothing written or done yet. |
| Command.AsyncReferenceIndexCommand.Lock | Classes/Command/AsyncReferenceIndexCommand.php:149-154 | Taking the lock sets it, whatever it was, records the step and changes nothing else. |
| Command.AsyncReferenceIndexCommand.Unlock | Classes/Command/AsyncReferenceIndexCommand.php:161-166 | Releasing the lock clears it unconditionally, records the step and changes nothing else. |
| Command.AsyncReferenceIndexCommand.DisableCapture | Classes/Command/AsyncReferenceIndexCommand.php:104 | The capture switch is turned off and nothing else changes. |
| Command.AsyncReferenceIndexCommand.PerformDeletion | Classes/Command/AsyncReferenceIndexCommand.php:114-122 | Every queue row with the given triple is removed, the deletion is recorded, and nothing else changes. |
| Command.AsyncReferenceIndexCommand.WriteLine | Classes/Command/AsyncReferenceIndexCommand.php:80 | One line is appended to the output and nothing else changes. |
| Command.AsyncReferenceIndexCommand.UpdateReferenceIndex | Classes/Command/AsyncReferenceIndexCommand.php:76-134 | The new state of lock, queue, capture switch, output and effects is exactly `Drain` of the old state, whose properties are the DrainProperties rows. The method reports an uncaught throwable exactly when the run passed the checks and the loop ended with a throwable that is not an \Exception. |
| Command.AsyncReferenceIndexCommand.ProcessQueue | Classes/Command/AsyncReferenceIndexCommand.php:100-124 | The foreach loop deletes the triples of exactly the rows before the first failure and records their call-then-delete pairs. It records the failing call, returns its exception, and leaves lock, capture and output untouched. |
| Command.AsyncReferenceIndexCommand.ProcessRow | Classes/Command/AsyncReferenceIndexCommand.php:106-123 | One row is reindexed in its scope. Its triple is deleted only when the call returns; when the call throws, the queue is unchanged and only the call is recorded. |
| Command.AsyncReferenceIndexCommand.Execute | Classes/Command/AsyncReferenceIndexCommand.php:52-64 | The new state is `ExecuteSpec` of the old one. Execute returns exit code 0, unless an uncaught throwable from the queue drain leaves it; that happens exactly in queue mode when `DrainEscapes` holds. |
| DrainProperties.CallsOfAppend | Classes/Command/AsyncReferenceIndexCommand.php:106-124 | The engine calls in two consecutive stretches of effects are those of the first followed by those of the second. |
| DrainProperties.DeletesOfAppend | Classes/Command/AsyncReferenceIndexCommand.php:106-124 | The deletions in two consecutive stretches of effects are those of the first followed by those of the second. |
| DrainProperties.AckedCalls | Classes/Command/AsyncReferenceIndexCommand.php:106-124 | When every call returns, there is one engine call per row, in row order, each in that row's scope. |
| DrainProperties.AckedDeletes | Classes/Command/AsyncReferenceIndexCommand.php:114-122 | When every call returns, the deletions are the rows themselves, in order. |
| DrainProperties.AckedOnlyCallsAndDeletes | Classes/Command/AsyncReferenceIndexCommand.php:106-124 | The loop body does nothing but reindex calls and deletions. |
| DrainProperties.AckedAcksFollowSuccess | Classes/Command/AsyncReferenceIndexCommand.php:113-122 | In a loop where every call returns, each deletion comes right after the successful call for the same row. |
| DrainProperties.AcksFollowSuccessFramed | Classes/Command/AsyncReferenceIndexCommand.php:106-124 | Effects without deletions around a stretch keep each deletion in it right after the successful call for its row. |
| DrainProperties.LoopAcksFollowSuccess | Classes/Command/AsyncReferenceIndexCommand.php:106-124 | In the loop's effects each deletion comes right after the successful call for its row, and the first effect is a call. |
| DrainProperties.LoopOnlyCallsAndDeletes | Classes/Command/AsyncReferenceIndexCommand.php:106-124 | The loop records only engine calls and deletions, and at least one effect when it ends with an uncaught throwable. |
| DrainProperties.FailingRowIsNew | Classes/Command/AsyncReferenceIndexCommand.php:113-122 | The failing row's triple is not among the rows before it, because a triple that returned once returns again. |
| DrainProperties.SkippedWhenLocked | Classes/Command/AsyncReferenceIndexCommand.php:78-82 | With the lock held, the run only writes "Another process is updating the reference index - skipping". The lock, queue, capture switch and effects are all unchanged. |
| DrainProperties.NothingToDoWhenEmpty | Classes/Command/AsyncReferenceIndexCommand.php:84-89 | With an empty queue, the run takes no lock and makes no calls or deletions. It only writes the nothing-to-do line. |
| DrainProperties.LockReleasedAfterRun | Classes/Command/AsyncReferenceIndexCommand.php:91-131 | A run past the checks ends with capture off. The lock stays held exactly when a throwable that is not an \Exception ends the loop, since only \Exception is caught at :128. Its effects open with taking the lock and turning capture off and hold only calls and deletions after that. They end with releasing the lock exactly when nothing escaped. |
| DrainProperties.CaptureOffBeforeEngineCalls | Classes/Command/AsyncReferenceIndexCommand.php:104-113 | Every engine call of a run comes after capture was turned off. |
| DrainProperties.AckAfterSuccess | Classes/Command/AsyncReferenceIndexCommand.php:113-122 | In every run, each deletion directly follows the call for the same row, and that call returned normally. |
| DrainProperties.NewEffectsOfRun | Classes/Command/AsyncReferenceIndexCommand.php:91-131 | A run's new effects are lock, capture off, the loop's effects, then unlock unless a throwable other than an `\Exception` escaped. The calls and deletions among them are the loop's. |
| DrainProperties.LoopCalls | Classes/Command/AsyncReferenceIndexCommand.php:106-124 | The loop calls the engine for rows 0..n in order, n being the failing row, or for all rows when none fails. It calls for nothing after n. |
| DrainProperties.LoopDeletes | Classes/Command/AsyncReferenceIndexCommand.php:106-124 | The loop deletes exactly the rows before the first failure, in order. |
| DrainProperties.CompleteRunDrainsQueue | Classes/Command/AsyncReferenceIndexCommand.php:106-126 | If no call throws, each row is reindexed once, in order and in its scope, and each is deleted. The queue ends empty, the lock is released, and "Reference indexing complete!" follows the count line. |
| DrainProperties.FailFastPrefixDeletion | Classes/Command/AsyncReferenceIndexCommand.php:100-133 | If row n throws, only rows 0..n-1 are deleted, calls stop at row n, and row n stays queued. An \Exception adds "ERROR! message (code)" after the count line and the lock is released. Any other throwable adds nothing and the lock stays. |
| DrainProperties.FailFastLeavesSuffix | Classes/Command/AsyncReferenceIndexCommand.php:100-133 | With distinct triples, a failure at row n leaves exactly rows n.. queued, in order. The lock stays exactly when the throwable is not an \Exception. |
| DrainProperties.UncaughtErrorKeepsLock | Classes/Command/AsyncReferenceIndexCommand.php:91-133 | If row n raises a throwable that is not an \Exception, such as a PHP \Error, it passes the catch clause at :128. Rows 0..n-1 are deleted and the lock file stays. The count line is the last line written, the lock is never released, and the throwable leaves updateReferenceIndex. |
| DrainProperties.UncaughtErrorBlocksLaterRuns | Classes/Command/AsyncReferenceIndexCommand.php:78-91 | After such an escape, every later run only writes the skip line, whatever is queued by then and however the engine behaves. |
| DrainProperties.FailingRowNeverDeleted | Classes/Command/AsyncReferenceIndexCommand.php:113-122 | Every row a run deletes had a call that returned normally; a row whose call throws is never deleted. |
| DrainProperties.SecondRunIsNoOp | Classes/Command/AsyncReferenceIndexCommand.php:84-126 | After a run where no call throws, a second run finds the queue empty and only writes the nothing-to-do line. |
| DrainProperties.ForceModeBypassesQueue | Classes/Command/AsyncReferenceIndexCommand.php:53-57 | With --force, the lock, queue and output are untouched. Capture is turned off, then a full index runs with --check and the negation of --silent. |
| DrainProperties.QueueModeDrains | Classes/Command/AsyncReferenceIndexCommand.php:58-62 | Without --force, the title is written and then the queue is drained. |
| DrainScenarios.ThreeRowsAllSucceed | Classes/Command/AsyncReferenceIndexCommand.php:106-126 | Three rows that all succeed are called in order, only the workspace-enabled table's row in its workspace. The queue ends empty and the lock free. |
| DrainScenarios.FirstRowFails | Classes/Command/AsyncReferenceIndexCommand.php:100-133 | An \Exception on the first of two rows leaves both queued after one call. The last line is "ERROR! boom (7)" and the lock is free. |
| DrainScenarios.FirstRowFatal | Classes/Command/AsyncReferenceIndexCommand.php:78-133 | A PHP \Error on the first of two rows leaves both rows queued and the lock file in place. Only the count line is written, and the next run writes the skip line. |
| DrainScenarios.BoomMessage | Classes/Command/AsyncReferenceIndexCommand.php:130 | The error line for message "boom" and code 7 is "ERROR! boom (7)". |
| Strings.TrimLeft | Classes/EventListener/IsTableExcludedFromReferenceIndexEventListener.php:23 | Left trimming removes a prefix made only of trimmed characters, and what remains does not start with one. |
| Strings.TrimRight | Classes/EventListener/IsTableExcludedFromReferenceIndexEventListener.php:23 | Right trimming removes a suffix made only of trimmed characters, and what remains does not end with one. |
| Strings.Trim | Classes/EventListener/IsTableExcludedFromReferenceIndexEventListener.php:23 | A trimmed entry is a slice of the entry. Only trimmed characters surround it, and it neither starts nor ends with one. |
| Strings.TrimIdempotent | Classes/EventListener/IsTableExcludedFromReferenceIndexEventListener.php:23 | Trimming an already trimmed entry changes nothing. |
| Strings.TrimUnpadded | Classes/EventListener/IsTableExcludedFromReferenceIndexEventListener.php:23 | An entry that neither starts nor ends with a trimmed character is its own trim. |
| Strings.TrimBlankPrefix | Classes/EventListener/IsTableExcludedFromReferenceIndexEventListener.php:23 | A leading blank does not change an entry's trim. |
| Strings.CommaFrom | Classes/EventListener/IsTableExcludedFromReferenceIndexEventListener.php:23 | The first comma at or after a position lies within the string, unless the scan reaches the end. |
| Strings.CommaFromFirst | Classes/EventListener/IsTableExcludedFromReferenceIndexEventListener.php:23 | No comma lies between the starting position and the first comma found. |
| Strings.CommaFromAt | Classes/EventListener/IsTableExcludedFromReferenceIndexEventListener.php:23 | A comma-free stretch that ends at a comma or at the end of the string makes that point the first comma found. |
| Strings.ExplodeFromStep | Classes/EventListener/IsTableExcludedFromReferenceIndexEventListener.php:23 | When a comma follows a position, the pieces from there are the text up to that comma, then the pieces after it. |
| Strings.ImplodeCons | Classes/EventListener/IsTableExcludedFromReferenceIndexEventListener.php:23 | Joining a first entry with at least one more puts exactly one comma between it and the joined rest. |
| Strings.SliceAtComma | Classes/EventListener/IsTableExcludedFromReferenceIndexEventListener.php:23 | A comma splits the text from a position into what comes before it, the comma, and what comes after it. |
| Strings.ExplodeFrom | Classes/EventListener/IsTableExcludedFromReferenceIndexEventListener.php:23 | Splitting the text from a position on gives at least one piece, and an empty piece counts. |
| Strings.Explode | Classes/EventListener/IsTableExcludedFromReferenceIndexEventListener.php:23 | Splitting on commas always gives at least one entry, the empty string included. |
| Strings.ImplodeExplodeFrom | Classes/EventListener/IsTableExcludedFromReferenceIndexEventListener.php:23 | Joining the pieces from a position on with commas gives back the text from that position. |
| Strings.ImplodeExplode | Classes/EventListener/IsTableExcludedFromReferenceIndexEventListener.php:23 | Joining the split entries with commas gives back the setting. |
| Strings.SplitAt | Classes/EventListener/IsTableExcludedFromReferenceIndexEventListener.php:23 | When the text from a position is a comma-free head followed by a tail, the head sits at that position with no comma inside, and the tail follows it. |
| Strings.ExplodeLastPiece | Classes/EventListener/IsTableExcludedFromReferenceIndexEventListener.php:23 | Comma-free text from a position on is one single piece. |
| Strings.CommaThenRest | Classes/EventListener/IsTableExcludedFromReferenceIndexEventListener.php:23 | Text that starts with a comma holds that comma at its first position, and the rest follows it. |
| Strings.HeadCommaRest | Classes/EventListener/IsTableExcludedFromReferenceIndexEventListener.php:23 | A comma-free head followed by a comma sits at its position with no comma inside, the comma right after it, and the rest after the comma. |
| Strings.ExplodeAtComma | Classes/EventListener/IsTableExcludedFromReferenceIndexEventListener.php:23 | A comma-free stretch up to a comma is the next piece, and the remaining pieces start after that comma. |
| Strings.ExplodeNextPiece | Classes/EventListener/IsTableExcludedFromReferenceIndexEventListener.php:23 | A comma-free head followed by a comma is the next piece, and the remaining pieces start after the comma. |
| Strings.ImplodeSplit | Classes/EventListener/IsTableExcludedFromReferenceIndexEventListener.php:23 | Joining two or more comma-free entries gives the first, one comma, then the rest joined; the rest stays comma-free. |
| Strings.ExplodeImplodeFrom | Classes/EventListener/IsTableExcludedFromReferenceIndexEventListener.php:23 | Comma-free entries joined with commas and placed at a position split back into those entries. |
| Strings.ExplodeImplode | Classes/EventListener/IsTableExcludedFromReferenceIndexEventListener.php:23 | Comma-free entries joined with commas split back into the same entries. |
| Strings.ExplodeTwo | Classes/EventListener/IsTableExcludedFromReferenceIndexEventListener.php:23 | Two comma-free entries joined by one comma split into exactly those two. |
| Strings.FirstPieceIsField | Classes/EventListener/IsTableExcludedFromReferenceIndexEventListener.php:23 | The first piece from a position that starts a field is the field that begins there. |
| Strings.ExplodeFromLater | Classes/EventListener/IsTableExcludedFromReferenceIndexEventListener.php:23 | Past the first comma from a position there is one piece fewer, and each later piece is the piece one earlier from just after that comma. |
| Strings.PieceIsFieldFrom | Classes/EventListener/IsTableExcludedFromReferenceIndexEventListener.php:23 | Every piece from a field start on is a field of the setting, starting at or after that position. |
| Strings.PieceIsField | Classes/EventListener/IsTableExcludedFromReferenceIndexEventListener.php:23 | Every entry of the split is a comma-free stretch bounded by commas or by the ends of the setting. |
| Strings.CommaBefore | Classes/EventListener/IsTableExcludedFromReferenceIndexEventListener.php:23 | When a comma sits just before a position, the first comma found from any earlier position lies before it. |
| Strings.FieldIsFirstPiece | Classes/EventListener/IsTableExcludedFromReferenceIndexEventListener.php:23 | A field is the first piece from its own start on. |
| Strings.FieldIsPieceFrom | Classes/EventListener/IsTableExcludedFromReferenceIndexEventListener.php:23 | Every field that starts at or after a field start is one of the pieces from that start on. |
| Strings.FieldIsPiece | Classes/EventListener/IsTableExcludedFromReferenceIndexEventListener.php:23 | Every comma-free stretch bounded by commas or by the ends is an entry of the split. |
| Strings.ListedIffTrimmedField | Classes/EventListener/IsTableExcludedFromReferenceIndexEventListener.php:23-24 | A name is in the trimExplode list exactly when trimming some comma-delimited field of the setting gives that name. |
| ExclusionListener.IsTableExcludedEvent.constructor | Classes/EventListener/IsTableExcludedFromReferenceIndexEventListener.php:14 | A new event is for the given table and not excluded. |
| ExclusionListener.IsTableExcludedEvent.MarkAsExcluded | Classes/EventListener/IsTableExcludedFromReferenceIndexEventListener.php:25 | Marking sets the flag; the table is a constant and cannot change. |
| ExclusionListener.Invoke | Classes/EventListener/IsTableExcludedFromReferenceIndexEventListener.php:14-27 | The setting is consulted exactly when the event was not yet excluded. Afterwards the event is excluded exactly when it already was, or the setting is non-empty and lists the table. |
| ExclusionListener.EmptyConfigLeavesEvent | Classes/EventListener/IsTableExcludedFromReferenceIndexEventListener.php:19-22 | A setting that PHP's empty() treats as empty ("" or "0") leaves the flag as it was. |
| ExclusionListener.ExcludedIffListed | Classes/EventListener/IsTableExcludedFromReferenceIndexEventListener.php:19-26 | A not yet excluded event ends excluded exactly when the setting is non-empty and trimming one of its comma-delimited fields gives the table. |
| ExclusionListener.BlankAfterCommaIgnored | Classes/EventListener/IsTableExcludedFromReferenceIndexEventListener.php:23-26 | A blank after the comma does not hide an entry: "pages, tt_content" excludes tt_content. |
| ExclusionListener.ZeroSettingExcludesNothing | Classes/EventListener/IsTableExcludedFromReferenceIndexEventListener.php:20-22 | The setting "0" excludes no table, not even one named "0", because PHP's empty() is true for "0". |
| ExclusionListener.ExclusionMonotone | Classes/EventListener/IsTableExcludedFromReferenceIndexEventListener.php:14-27 | The listener never clears the flag: excluded before means excluded after, whatever the setting. |

## Left out

- Symfony console plumbing is not modelled: option parsing and `SymfonyStyle` formatting. The title is one output line holding the command's description.
- TYPO3's `ReferenceIndex` internals (`updateRefIndexTable`, `updateIndex`, `setWorkspaceId`) are not modelled, because they are library code. The engine is an oracle of which calls throw, and it is deterministic.
- `BackendUtility::isTableWorkspaceEnabled` is not modelled, because it is library code. It is a fixed set of table names.
- The `ReferenceIndexQueueAware` trait (`performCount`, `getRowsWithGenerator`, `performDeletion`) is not part of this model. Its queries are sequence operations over one snapshot of the queue table. The model assumes the count equals the number of rows the generator yields.
- The model does not produce SQL text, quoting or `(integer)` casts. A deletion removes every row whose triple is equal.
- The model assumes `performDeletion` never throws. An exception from it would also be caught and reported by the error branch.
- The lock file's path resolution and the real `touch`/`unlink` I/O are not modelled. The lock is a boolean.
- The race between two processes across `file_exists` and `touch` is not modelled, because the model is single-threaded.
- PHP's warning when `unlink` meets a missing file is not modelled. It depends on the runtime's error handler.
- The global static capture switch of the extension's `ReferenceIndex` class is a field of the command.
- `ExtensionConfiguration` is not modelled: the setting is a parameter of the listener.
- `GeneralUtility::trimExplode` is not part of the shown source. It is modelled with its default arguments: split on every comma, trim each piece, keep empty pieces, no limit.
- DrainProperties.FailingRowNeverDeleted: holds because the engine is deterministic. If the same triple could first return and later throw, the first success would delete every row with that triple at :114-122, the failing duplicate included. FailingRowIsNew rests on the same assumption.
- Command.ErrorMessage: renders the exception code as an integer. PHP's `getCode()` can return a string, such as the SQLSTATE "HY000" of a `PDOException`, which PHP prints as is.
- Throwables from `makeInstance`, `setWorkspaceId` and `isTableWorkspaceEnabled` (:109-112) are folded into the outcome of the row's engine call. The trace still records a call for that row.
- A throwable from `updateIndex` in `--force` mode is not modelled: the full index run is one effect that always returns.
- ExclusionListener.ListsTable: uses exact string equality for the membership test. PHP's `in_array` compares loosely, so two numeric strings such as "1" and "01" would match there and not here.
- PHP's `empty()` is modelled for strings only (`""` and `"0"`); the setting is assumed to be a string.
- Rows that another process enqueues while a run is in progress are not modelled: the queue is one snapshot. In the source the deletion by triple at :114-122 would also remove a row with the same triple enqueued after that row's engine call, and that reindex request would be lost.
- The console output and the effect trace are separate logs, so the model does not state that the completion or error line (:125, :130) is written before the lock file is removed (:126, :131).
- ext_emconf.php is not modelled, because it is extension metadata with no logic.
