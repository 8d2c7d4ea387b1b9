# Verified model of a replicated tables workspace

A workspace is a set of tables kept on every device and synchronised through a chat room. Every
piece of state is a cell, addressed by table, row and column and merged by last write wins. Four
mechanisms have to agree over whole runs: the merge, the hybrid logical clock that stamps local
writes, the compaction that re-emits the stalest cells with every write, and the two rules that let
a cold start stop reading history early. This project models those mechanisms and the parts built
on them, and proves what they promise.

Run `dafny verify dfyconfig.toml`.

## Modules

| file | what it models |
|---|---|
| Cells, Order | cells, the merge, code-point order and sorting by rank |
| Reads, Shown, States, Stores | what is shown (rows, tombstones, cutoffs, defaults) and what that means cell by cell, the workspace as a value, and its routing into stores |
| Schema, Declared, Defaults, Deletion, Lifecycle | fan-outs of schema operations and what reads what after each, changing a default, deleting and re-creating, tables over consecutive operations |
| Compaction, Selection, Invisible, BumpHistory | bumps: choosing them, emitting them, and that they show neither in tables nor in the change log |
| Effects, Workspace | the workspace object with its fields updated in place, against the value-level specification |
| Timeline, Operations, Coverage, Coalescing, Agreement | runs of a single writer: bounded lookback, which operations are steps of a run, the coverage stop, events that carry several writes, and what agreeing on live cells shows |
| Pages, Gather, Restart, Sessions, ColdStart, Integrity | the backward walk and its stop rules, the walk into a workspace, snapshots over any number of restarts, both stop rules together over any number of sessions, the older paginator, the audit |
| SendQueue, Outbox | the coalescing send queue as a state machine and as an object, and the page that opens again with what it had not sent |
| History | state at a point, rollback, the change log |
| FractionalIndex, Moves | ordering keys and the writes that move a row |
| Calendar, Dates | civil dates, date strings and date filters |
| Csv, MultiValue | the two text codecs of archives |

The objects (`Workspace`, `TimelinePaginator`, `SendQueue`) keep the source's fields and loops; each
method's contract ties the new fields to a function of the old ones, and the results are proved
about those functions. Wall-clock readings, the serialized size of an update, the order in which a
hash map is iterated and the server's answers are inputs that may be anything.

## Where the code falls short of what is said about it

Each is stated with an exact condition or a concrete input.

- Arrival order is irrelevant exactly if no two different updates of a cell tie at the top (`Cells.OrderIrrelevantIffTiesOutranked`).
- A registry row named like a system table captures its updates: such rows, and no others, put the workspace out of order (`Stores.StaysSortedIff`), lose that table's cells from view unless it has none (`Stores.CapturedMergesIff`), and keep its manager from learning of later updates (`Stores.ReachesManagerIff`, `Stores.CapturedRouting`). Results about merged workspaces are for updates that are not such rows (`WellFormed`).
- Reordering columns and recording a revert hand out stamps the clock does not know of: the clock covers what is held exactly after a reorder of at most one column, never after a recorded revert, and a second reorder loses exactly if it draws a stamp below the last of the first (`Workspaces.Workspace.ReorderColumns`, `Workspaces.Workspace.BuildRollback`, `Effects.SecondReorderLosesIff`).
- A stalest cell over 32 KiB ends compaction until it or its row's tombstone is written, or its column or table is deleted (`Compaction.BumpsSomethingIff`, `Timeline.StuckEndsCompaction`).
- Bounded lookback needs that no write takes the tombstone off a row that holds data past no cutoff (`Timeline.RevivesIff`); importing and deleting do not (`Operations`). Adding a column or creating a table can bring deleted cells back, because a schema row is named by joining two ids with a dot and ids may hold dots themselves (`ui/src/components/Sidebar.tsx:669`, `ui/src/views/table/TableView.tsx:774`): it does so exactly if a column loses its row, and with it the mark that hid a cell, to another (`Operations.AddingAColumnIsLegalIff`, `Operations.FreedIffItLosesItsRow`, `Operations.DottedIdsCollide`).
- A page without new cells is no evidence by itself that every live cell was seen, neither for the walk of the workspace (`Coverage.StopWithoutEvidenceMissesCells`, `Coverage.StopIsCompleteIff`) nor for the older paginator, whose comment says so (`ColdStart.StopIsCompleteIff`). A bump since is (`Coverage.PageStopIsSound`), over any number of sessions (`Sessions.SessionsAgreeWithTheRoom`).
- The grace margin is safe exactly for skew up to it (`Restart.GraceStopMissesNothing`, `Restart.LargerSkewLosesAnEvent`).
- A write that was not refused can be lost with the write that replaced it in the queue (`SendQueue.SupersededThenRefused`), exactly under the condition of `SendQueue.RejectLosesIff` and, over whole runs, of `SendQueue.SafeAtEndIff`.
- Splitting a multi-value cell never ends if an empty value is known and the scan comes to text that starts with no other known value (`MultiValue.SticksIff`, `MultiValue.ScanEndsIff`, `MultiValue.EmptyKnownValueSticks`).
- Joined values do not always read back: a list can read as another exactly if the known values cannot be told apart (`MultiValue.RoundTripIff`, `MultiValue.PrefixIsAmbiguous`).
- A row that the writer still lists can be missing for a reader that stopped early: exactly the rows that hold no live cell or have a dead tombstone (`Agreement.SurelyListedIff`).
- A comment on candidate selection says a deleted table's schema is not exported and so never bumped; the code exports every schema cell. Bumping them is harmless all the same, since a deletion mark is a value and bumps keep values (`Invisible.BumpsAreInvisible`).
- A table created again does not bring back a column that had been deleted on its own (`Lifecycle.CreatedDefaultIff`).
- A rollback of table "a" also rolls back the columns of a table "a.b", whose schema rows begin with "a." too (`Effects.RollbackOfATable`).
- A day past the end of its month is taken for a day of the next one (`Dates.LenientDay`).
- A second rollback to the same point is not empty (`History.RollbackAgain`).
- A move between two rows with the same key panics (`Moves.MovePanicsIff`).
- A first field that begins with a byte-order mark loses it (`Csv.RoundTripIff`), although the text is otherwise quoted as rules 5 to 7 of section 2 of RFC 4180 ask (records end in LF).

## Model

| member | source | states |
|---|---|---|
| Cells.WinsOverIsRankOrder | crates/tables-over-matrix/src/cell.rs:56-81 | the last-write-wins comparison is a total preorder on (timestamp, server timestamp), a missing server timestamp ranking lowest; it holds both ways exactly on a full tie |
| Cells.LaterArrivalWins | crates/tables-over-matrix/src/cell.rs:62-81 | two devices write a cell under one stamp: whatever order a device learns of it, the write that reached the room later is held, and it beats one that has not reached it |
| Cells.PutAllKeepsWinner | crates/tables-over-matrix/src/table.rs:62-99 | after any list of updates a cell is held iff it was held or offered, the held version is one of those on offer, and no offer outranks it |
| Cells.Convergence | crates/app-core/src/workspace.rs:729-766 | the same updates in any order and with any repetition give the same cells, provided two different updates of a cell tie only below a higher offer |
| Cells.OrderIrrelevantIffTiesOutranked | crates/tables-over-matrix/src/cell.rs:62-81 | that proviso is exact: arrival order is irrelevant if and only if every tie between different updates is outranked |
| Cells.PutAllIdempotent | crates/app-core/src/bridge_matrix.rs:1414-1420 | updates that are already merged change nothing, so a walk may re-read old pages |
| States.ReplicasConverge | crates/app-core/src/workspace.rs:729-766 | whole workspaces converge: same cells, same tables and same clock, also when data cells come before their table's registry row |
| States.NextTimestamp | crates/app-core/src/workspace.rs:200-204 | a drawn stamp is the wall clock or one past the clock, whichever is later, and past the clock exactly below saturation |
| States.TablesAre | crates/app-core/src/workspace.rs:729-766 | the tables known are those with a registry row and those with a data cell |
| States.ApplyAllConsistent | crates/app-core/src/workspace.rs:729-766 | well-formed updates keep the clock past every held timestamp, keep system names out of the data tables and keep every cell's table known |
| States.FreshBatchReplaces | crates/tables-over-matrix/src/table.rs:62-99 | a batch of distinct cells stamped past everything held replaces exactly the cells it names |
| States.SnapshotRestores | crates/app-core/src/workspace.rs:633-643 | replaying exported cells and honouring the recorded clock restores every cell and the clock, and exactly the tables that have a registry row or a cell |
| Stores.RoutingIsTheFlatMerge | crates/app-core/src/workspace.rs:729-766 | routing a well-formed update to its data table or manager is the merge into one map of cells, and adds exactly the tables the update creates |
| Stores.StaysSortedIff | crates/app-core/src/workspace.rs:729-766 | routing keeps every cell in its own table's store after exactly the updates that are not registry rows named like a system table |
| Stores.CapturedMergesIff | crates/app-core/src/workspace.rs:737-755 | such a row still merges into the one map of cells exactly if the system table it captures is not the registry itself and has no cell yet; otherwise that table's cells are lost from view |
| Stores.ReachesManagerIff | crates/app-core/src/workspace.rs:729-766 | an update of a system table reaches its manager exactly if no table captures it, or it would have changed nothing there |
| Stores.CapturedRouting | crates/app-core/src/workspace.rs:737-755 | what this does: a column deletion that follows such a row never reaches the schema, while in the other order it does |
| Workspaces.Workspace.constructor | crates/app-core/src/workspace.rs:157-171 | a new workspace is empty and valid |
| Workspaces.Workspace.NextTimestamp | crates/app-core/src/workspace.rs:200-204 | draws and records the stamp of the specification |
| Workspaces.Workspace.ObserveTimestamp | crates/app-core/src/workspace.rs:209-211 | the clock becomes the larger of itself and the stamp observed |
| Workspaces.Workspace.ObserveUpdates | crates/app-core/src/workspace.rs:222-226 | afterwards the clock is past every stamp of the list, and no further than needed |
| Workspaces.Workspace.Deliver | crates/app-core/src/workspace.rs:729-766 | the branches of routing do to the five stores what the routing function says |
| Workspaces.Workspace.ApplyUpdate | crates/app-core/src/workspace.rs:729-766 | any update is routed and observed; a well-formed one is one step of the abstract merge and keeps the workspace valid: sorted into its stores, with the clock past everything held |
| Workspaces.Workspace.ApplyEach | crates/app-core/src/workspace.rs:606-617 | any updates are routed one by one; well-formed ones are the abstract fold |
| Workspaces.Workspace.UpdateCellReturning | crates/app-core/src/workspace.rs:463-483 | the stamp is drawn even for an unknown table; otherwise the write is merged, and below saturation it replaces whatever the cell held |
| Workspaces.Workspace.SelectGlobalBumpCandidates | crates/app-core/src/workspace.rs:501-530 | the candidates are the n stalest live cells of the whole workspace, oldest first |
| Workspaces.Workspace.EmitBumps | crates/app-core/src/workspace.rs:556-606 | the loop emits exactly the bumps of the specification and leaves the clock where it says |
| Workspaces.Workspace.UpdateCellWithBump | crates/app-core/src/workspace.rs:539-620 | an unknown table is an error before any stamp is drawn; otherwise the returned batch and the new workspace are those of the specification for stalest candidates |
| Workspaces.Workspace.DeleteRow | crates/app-core/src/workspace.rs:829-860 | the row ends up behind a tombstone written under a fresh stamp |
| Workspaces.Workspace.ExportCells | crates/app-core/src/workspace.rs:633-643 | the export lists exactly the cells held |
| Workspaces.Workspace.LoadCells | crates/app-core/src/workspace.rs:718-726 | any cells are routed one by one and the recorded clock honoured; with well-formed ones that is loading as specified, and the workspace stays valid |
| Workspaces.Workspace.CreateTable | crates/app-core/src/workspace.rs:265-291 | fails exactly for an id that is taken, by a table or a registered name that is not deleted; otherwise merges the definition's cells, reserves their stamps and drops any cells this device still held for the id; the workspace is valid afterwards exactly if the id is not a system table's name |
| Workspaces.Workspace.AddColumn | crates/app-core/src/workspace.rs:294-306 | places the column where it says or after every other, merges its cells and moves the clock past all their stamps |
| Schema.NextColumnOrder | crates/app-core/src/schema.rs:478-498 | one past the largest position among the table's schema rows, 0 if there is none |
| Workspaces.Workspace.ReorderColumns | crates/app-core/src/workspace.rs:310-323 | merges the order cells without reserving stamps: the workspace stays valid exactly if at most one column is listed |
| Workspaces.Workspace.UpdateColumn | crates/app-core/src/workspace.rs:328-381 | first fills the retiring default into exactly the listed rows that relied on it, in display order, then writes the patch; every stamp is the next draw of the clock, so all are past what was held |
| Workspaces.Workspace.DeleteColumn | crates/app-core/src/workspace.rs:397-406 | marks the column deleted, with the drawn stamp as its cutoff |
| Workspaces.Workspace.DeleteTable | crates/app-core/src/workspace.rs:1060-1075 | fails exactly for an unknown table; otherwise marks it deleted with the drawn stamp as its cutoff |
| Lifecycle.CreateTwice | crates/app-core/src/workspace.rs:265-291 | on the object: creating a table twice fails the second time, whatever the second definition, and the table is shown |
| Lifecycle.DeleteAndRecreate | crates/app-core/src/workspace.rs:265-291 | on the object: deleting a table hides it and its defaults and frees its id; creating it again succeeds, shows it, and lists no row |
| Lifecycle.ShownMeans | crates/app-core/src/workspace.rs:784-790 | the tables shown are those whose registry row does not read deleted |
| Lifecycle.CreatedIsShown | crates/app-core/src/schema.rs:198-240 | a table just created is shown and its id is taken |
| Lifecycle.DeletedIsGone | crates/app-core/src/schema.rs:756-789 | a table just deleted is not shown, has no defaults, and its id is free |
| Lifecycle.CreatedDefaultIff | crates/app-core/src/schema.rs:386-428 | a select column of a table created again reads its default exactly if it had not been deleted on its own before |
| Workspaces.Workspace.BuildRollback | crates/app-core/src/workspace.rs:655-707 | restores nothing exactly if every cell in scope already has its value at the target, and then records nothing; otherwise restores as specified and adds the revert row, with the clock where the two draws leave it, which never covers everything held |
| Effects.LocalWritesWin | crates/app-core/src/workspace.rs:189-204 | after any well-formed updates and the load of any snapshot, the next local write is stamped past everything held and replaces what its cell holds |
| Effects.ReorderOutrunsTheClock | crates/app-core/src/workspace.rs:310-323 | the last stamp of a reorder of two or more columns wins its cell and lies past the clock |
| Effects.SecondReorderLosesIff | crates/app-core/src/schema.rs:618-638 | consequence, in any workspace: a second reorder that moves the last column to the front is lost on that column exactly if it draws a stamp below the last of the first; within one millisecond that is from three columns on |
| Effects.RollbackOfATable | crates/app-core/src/workspace.rs:655-707 | after a rollback of table t every cell of its data, of a schema row named t, a dot and anything, and of its registry row reads as the room had it at the target |
| Effects.RollbackLeavesTheRest | crates/app-core/src/workspace.rs:672-689 | and every other cell is untouched: other tables' data and registry rows, and schema rows that do not begin with t and a dot |
| Effects.RollbackOfEverything | crates/app-core/src/workspace.rs:655-707 | after a rollback of the whole workspace every cell outside the log of reverts reads as at the target, and the log only gains a row |
| Effects.CreatedStaysConsistent | crates/app-core/src/workspace.rs:265-291 | emptying a re-created table and merging its definition commute and keep the workspace consistent |
| Selection.ShortlistsConcat | crates/app-core/src/workspace.rs:494-500 | shortlists of separate tables concatenate to a shortlist of both |
| Selection.PrefixIsShortlist | crates/tables-over-matrix/src/table.rs:301-330 | the n stalest live cells of one table are a shortlist of it |
| Selection.TruncatedShortlistIsStalest | crates/app-core/src/workspace.rs:527-529 | sorting the merged shortlists by age and cutting at n gives the n stalest cells of the workspace |
| Selection.TableBumpableIsBumpable | crates/tables-over-matrix/src/table.rs:309-322 | judging a cell from its own table and the schema's marks is judging it from the whole workspace |
| Selection.StalestOfTable | crates/tables-over-matrix/src/table.rs:301-330 | the table's selection is the first n of its live cells by age |
| Compaction.BumpsAreAPrefix | crates/app-core/src/workspace.rs:560-606 | bumps are the candidates other than the user's cell, in order, up to a point |
| Compaction.StampsAscend | crates/app-core/src/workspace.rs:545-568 | below saturation the stamps of one write ascend strictly past the clock |
| Compaction.BumpsInTurn | crates/app-core/src/workspace.rs:556-579 | each bump is the next candidate's under the next draw of the clock |
| Compaction.BumpsStayWithinBudget | crates/app-core/src/workspace.rs:556-606 | the bumps of an event are at most 4096 bytes together and 2048 each, or there is exactly one, over 2048 and at most 32768 |
| Compaction.LeftOutOnlyIfTooLarge | crates/app-core/src/workspace.rs:580-606 | conversely the first candidate left out would have gone over the 4096, or is over 2048 itself and in company or over 32768, or came behind a bump that went alone |
| Compaction.LoopEndsAt | crates/app-core/src/workspace.rs:560-568 | the clock stands at the last stamp drawn, which may be that of a bump not sent |
| Compaction.BumpsSomethingIff | crates/app-core/src/workspace.rs:582-600 | a write emits a bump exactly if there is a candidate besides the user's cell and the stalest such one is at most 32 KiB: a larger one blocks all compaction |
| Compaction.SmallBumpsAllFit | crates/app-core/src/workspace.rs:601-606 | if every bump fits its share of the budget none is left out |
| Compaction.BumpsKeepValues | crates/app-core/src/workspace.rs:562-579 | every bump re-sends the held value of a live cell other than the user's, each at most once |
| Compaction.AfterWriteFacts | crates/app-core/src/workspace.rs:539-620 | a write changes no table, leaves the clock where the bump loop left it and keeps the workspace consistent |
| Compaction.AfterWriteAt | crates/app-core/src/workspace.rs:539-620 | a write replaces exactly the cells it emits |
| Invisible.RefreshedLooksTheSame | crates/tables-over-matrix/src/table.rs:169-190 | raising the stamps of live cells leaves the displayed rows as they were, cutoffs included |
| Invisible.WriteRefreshes | crates/app-core/src/workspace.rs:539-620 | compared with the plain write, bumps only raise the stamps of live cells |
| Invisible.BumpsAreInvisible | crates/app-core/src/workspace.rs:539-620 | for every legal write the version with bumps and the one without give the same cell values (so schemas, views and deletion marks), the same tables and the same displayed rows in each |
| BumpHistory.BumpsLeaveNoEdits | crates/app-core/src/bridge_matrix.rs:2163-2182 | with a write's bumps the change log reads exactly as with the write alone: the same edits, the same last value of every cell |
| BumpHistory.LogKeepsAgreeing | crates/app-core/src/bridge_matrix.rs:2163-2182 | after every step of a run the log's last values are again those the workspace holds |
| BumpHistory.ErasingBumpsKeepsHistory | crates/app-core/src/bridge_matrix.rs:2154-2182 | over a whole run: dropping every bump from the timeline leaves the change log, edit for edit, and the value of every cell at every point in time as they were |
| Timeline.StepReplaces | crates/app-core/src/workspace.rs:539-620 | every step of a single writer replaces exactly the cells it emits, under stamps past the old clock |
| Timeline.RevivesIff | crates/app-core/src/workspace.rs:829-851 | a write brings unsent cells back to life exactly if it takes the tombstone off a deleted row that holds a cell past no cutoff |
| Timeline.StalestIsEmitted | crates/app-core/src/workspace.rs:582-600 | with no bump over 32 KiB the stalest live cell is in every event |
| Timeline.WaitingShrinks | crates/app-core/src/workspace.rs:501-620 | with no bump over 32 KiB each write strictly shrinks the set of live cells not re-emitted since a chosen point |
| Timeline.WaitingShrinksBySixteen | crates/app-core/src/workspace.rs:501-620 | with bumps of at most 256 bytes it shrinks by sixteen, or to nothing |
| Timeline.BoundedLookback | crates/app-core/src/workspace.rs:501-620 | over any stretch of a run, whatever imports, deletions and schema changes are among its steps, the waiting set shrinks by one for every write in it, or by sixteen with bumps of at most 256 bytes, or is empty |
| Timeline.LongEnoughStretchCovers | crates/app-core/src/workspace.rs:501-620 | any stretch with a write among its steps for every cell live at its start, or for every sixteen with bumps of at most 256 bytes, emits every cell live at its end |
| Timeline.StuckBlocksTheWrite | crates/app-core/src/workspace.rs:582-600 | a stalest cell too large to bump keeps a write that leaves it and its row's tombstone alone from bumping anything, and outlives it |
| Timeline.StuckStaysStuck | crates/app-core/src/workspace.rs:582-600 | it stays the stalest through every step that neither writes it nor ends its life, such as deletions elsewhere, imports and schema changes |
| Timeline.StuckEndsCompaction | crates/app-core/src/workspace.rs:582-600 | so over any stretch of steps of all kinds that leave it alone each write's event is the user's own update alone |
| Operations.UnmarkedIsLegal | crates/app-core/src/workspace.rs:829-860 | writing and importing data, deleting rows and changing schema cells that mark no deletion bring nothing deleted back: they are steps of a run |
| Operations.DeletingARowIsLegal | crates/app-core/src/workspace.rs:829-860 | in particular deleting a row |
| Operations.DeletingAColumnIsLegal | crates/app-core/src/schema.rs:711-725 | so is deleting a column |
| Operations.DeletingATableIsLegal | crates/app-core/src/schema.rs:756-775 | and deleting a table |
| Operations.AddingAColumnIsLegalIff | crates/app-core/src/schema.rs:502-611 | adding a column is a step of a run exactly if it frees no cell: no held cell that a column cutoff alone hides is newer than what is left of that cutoff once the column's schema row has been written |
| Operations.FreedIffItLosesItsRow | crates/app-core/src/schema.rs:502-611 | in a workspace whose schema rows bear their columns' names a cell is freed exactly if its own column owned the row now written for another and that row's deletion mark alone hid it |
| Operations.NamesAreKept | crates/app-core/src/schema.rs:502-611 | adding columns and creating tables keep every schema row named after the column it describes |
| Operations.NamesAreKeptElsewhere | crates/app-core/src/schema.rs:614-775 | so do all steps that write no ids of columns, and an empty workspace has no others |
| Operations.DottedIdsCollide | crates/app-core/src/schema.rs:502-611 | a concrete case, since ids may hold dots: column "b.c" added to table "a" takes over the row, and the deletion mark, of column "c" of table "a.b", and a deleted cell comes back unsent |
| Operations.CreatingATableIsLegalIff | crates/app-core/src/schema.rs:198-383 | and creating a table, under the same exact condition for its columns |
| Coverage.StalerThanABumpIsEmitted | crates/app-core/src/workspace.rs:560-606 | candidates go stalest first, so every live cell staler than a bumped one is in the same event |
| Coverage.ReBumpCovers | crates/app-core/src/bridge_matrix.rs:1479-1494 | if a cell's next emission after some event is a bump, every live cell was emitted at or after that event |
| Coverage.ReplayKeepsLastEmission | crates/app-core/src/bridge_matrix.rs:1446-1456 | replaying any newest part of the timeline gives each cell emitted in it the value of its last emission |
| Coverage.WalkIsPartOfFullReplay | crates/app-core/src/bridge_matrix.rs:1446-1456 | a walk that stops early holds nothing but what full replay holds |
| Coverage.PageStopCovers | crates/app-core/src/bridge_matrix.rs:1479-1494 | a page that adds no unseen cell and holds a cell the user has not written in newer pages proves that everything live by then has been read |
| Coverage.PageStopIsSound | crates/app-core/src/bridge_matrix.rs:1479-1494 | with that evidence stopping equals full replay for every live cell, with the writer's value, and the reader holds nothing else than full replay does |
| Coverage.StopIsCompleteIff | crates/app-core/src/bridge_matrix.rs:1479-1494 | evidence or not, stopping is complete exactly if every live cell emitted in the part not read was emitted again in the part read |
| Coverage.StopWithoutEvidenceMissesCells | crates/app-core/src/bridge_matrix.rs:1488-1493 | without that evidence the rule is wrong, whatever the page length n: importing one cell and then another one 2n times stops before the first cell, which is live |
| Gather.GatherEvent | crates/app-core/src/bridge_matrix.rs:1434-1456 | applying one event merges its cells and raises the marker to its timestamp only if it carries cells |
| Gather.GatherPage | crates/app-core/src/bridge_matrix.rs:1407-1475 | one page is applied whole, and its oldest timestamp, its cells, its unreadable events and their ids and the marker are what the page says |
| Gather.GatherNext | crates/app-core/src/bridge_matrix.rs:1407-1494 | after a page the walk stops exactly if one of the two rules holds |
| Gather.GatherHistory | crates/app-core/src/bridge_matrix.rs:1370-1503 | the walk reads pages up to the first stop, an empty page or the end, applies every update on them, raises the marker to their newest cell event and lists their unreadable events; it fails exactly at a page it still needs and cannot fetch |
| Gather.WalksIff | crates/app-core/src/bridge_matrix.rs:1370-1503 | the walk reads up to the first page at which one of the two rules holds, else to an empty page or the end |
| Gather.GraceRuleIff | crates/app-core/src/bridge_matrix.rs:1476-1478 | the grace rule holds if some event of the page is more than thirty seconds older than the marker |
| Gather.CoverageRuleIff | crates/app-core/src/bridge_matrix.rs:1479-1494 | the coverage rule holds if every cell of the page was on a newer page, some cell was, and the page has no unreadable event, those known to come before the marker excepted |
| Gather.UnreadableIsNoEvidence | crates/app-core/src/bridge_matrix.rs:1457-1494 | so at a page with such an event only the grace rule, or running out of pages, ends the walk |
| Gather.LostAre | crates/app-core/src/bridge_matrix.rs:1457-1471 | an id is listed exactly if an unreadable event with it is on the pages read: on the fast path one without a time or not older than the marker; no id twice |
| Gather.MarkerIs | crates/app-core/src/bridge_matrix.rs:1434-1446 | the marker afterwards is the newest time of an event read that carries cells, or the old one |
| Gather.ReceivedAre | crates/app-core/src/bridge_matrix.rs:1434-1456 | what is applied are the updates of the cell events read, each under its event's time |
| Pages.WalkedPages | crates/app-core/src/bridge_matrix.rs:1370-1503 | page by page or all at once, the walk applies the same updates and reaches the same marker |
| Pages.WalkedLostIsExact | crates/app-core/src/bridge_matrix.rs:1457-1471 | the list a walk returns holds exactly the ids of the unreadable events that count on the pages read, each once |
| Pages.WalksWithoutTheRule | crates/app-core/src/bridge_matrix.rs:1479-1494 | a walk with the coverage rule on that this rule alone did not end is a walk with the rule off |
| Restart.GraceStopMissesNothing | crates/tables-over-matrix/src/lib.rs:90-110 | if no deeper event is stamped more than the margin past a shallower one, the pages walked when the grace rule fires hold every event the snapshot does not |
| Restart.LargerSkewLosesAnEvent | crates/tables-over-matrix/src/lib.rs:84-107 | with more skew than the margin the rule fires while an event the snapshot does not hold is still unread |
| Restart.BoundedWalkReachesTheSnapshot | crates/app-core/src/bridge_matrix.rs:1370-1503 | a walk bounded by a snapshot, both rules on, that the coverage rule alone did not end reads every event after the snapshot |
| Restart.ReloadIsIdentity | crates/app-core/src/workspace.rs:718-726 | saving and loading merged state gives the same state back |
| Restart.ReopenKeepsInStep | crates/app-core/src/bridge_matrix.rs:1520-1588 | a reopening leaves the device with the merge of everything up to the new end of the stream, and with its marker |
| Restart.AlwaysInStep | crates/app-core/src/bridge_matrix.rs:1520-1600 | over every history of syncing, writing, closing and reopening the device holds all of the stream it has reached, and its marker is that prefix's |
| Restart.RestartsEqualFullReplay | crates/app-core/src/bridge_matrix.rs:1377-1477 | once a device has reached the end of the stream, through any number of restarts with both rules on but none ended by the coverage rule alone, its state equals replaying the whole room and its own writes, and the next snapshot covers the whole stream |
| Pages.NoMarkerWalksInFull | crates/app-core/src/bridge_matrix.rs:1377-1494 | without a marker the bounded walk reads what the full walk reads |
| Agreement.LiveRowsShowTheSame | crates/app-core/src/workspace.rs:862-900 | a reader that holds every live cell, and nothing newer, shows each live row as the writer does: listed or not, and reading the same in every column, defaults included |
| Agreement.SurelyListedIff | crates/tables-over-matrix/src/table.rs:169-190 | a row that the writer lists is certain to be listed by every reader that agrees on the live cells exactly if it has a live cell and its tombstone, if any, is live |
| Agreement.DeadRowsMayVanish | crates/tables-over-matrix/src/table.rs:169-190 | an instance: a row whose only cell is past its column's deletion is listed, blank, by the writer and missing for a reader that never fetched it |
| Coalescing.BatchReplaces | crates/app-core/src/bridge_matrix.rs:3103-3114 | an event that carries of each cell of a stretch of writes the last update does to the workspace what the writes did one after the other |
| Coalescing.CoalescedPageCovers | crates/app-core/src/bridge_matrix.rs:1479-1494 | the coverage rule with a bumped cell on the last page holds for coalesced events as for single writes |
| Sessions.ReadingOnHoldsLive | crates/app-core/src/bridge_matrix.rs:1377-1477 | a reader that held everything live and reads all that is newer holds everything live again |
| Sessions.CoveringHoldsLive | crates/app-core/src/bridge_matrix.rs:1479-1494 | a walk ended by the coverage rule with a bumped cell on its last page has read the current version of everything live |
| Sessions.ConnectKeepsUpToDate | crates/app-core/src/bridge_matrix.rs:1520-1588 | connecting, with the grace rule and the coverage rule both on, leaves the reader with everything live and a marker no later than what it has been through |
| Sessions.SessionsStayUpToDate | crates/app-core/src/bridge_matrix.rs:1520-1600 | so it is after any number of sessions, although a coverage stop leaves gaps in what the snapshot holds |
| Sessions.SessionsAgreeWithTheRoom | crates/app-core/src/bridge_matrix.rs:1370-1503 | whatever the sessions and however the writer's queue coalesced the writes, each cell live at the point reached is held exactly as replaying the whole room gives it and with the writer's value, and nothing is held that is newer or unknown |
| Sessions.SessionsShowTheRoom | crates/app-core/src/bridge_matrix.rs:1370-1503 | whatever the sessions, each live row is listed and reads as in the writer's workspace |
| ColdStart.TimelinePaginator.ProcessUpdate | crates/tables-over-matrix/src/coldstart.rs:71-94 | one update is merged into its table and counted as the first of its cell or as skipped |
| ColdStart.TimelinePaginator.ProcessBatch | crates/tables-over-matrix/src/coldstart.rs:68-100 | a batch is merged whatever its order; the counters count first sightings and the rest; the result says whether a new cell was seen |
| ColdStart.MaterializeFromTimeline | crates/tables-over-matrix/src/coldstart.rs:30-34 | one batch or many give the merge of all events |
| ColdStart.FirstSightingIsFinal | crates/tables-over-matrix/src/coldstart.rs:60-67 | newest first, the first sighting of a cell already has the value of full materialization |
| ColdStart.StopIsCompleteIff | crates/tables-over-matrix/src/coldstart.rs:64-67 | stopping loses nothing exactly if no deeper update is of an unseen cell; the comment in the code promises it from one batch without new cells |
| Integrity.IntegrityDiff | crates/app-core/src/snapshot.rs:105-126 | the counts and repairs are those of the server cells missing or newer |
| Integrity.RepairedIff | crates/app-core/src/snapshot.rs:105-126 | a server cell is repaired here exactly if it is missing or the server has a newer version, a missing server time counting as zero |
| Integrity.RepairIsExact | crates/app-core/src/bridge_matrix.rs:2461-2482 | applying the repairs makes those cells the server's, leaves every other cell alone and makes a second audit clean |
| Integrity.CleanIff | crates/app-core/src/snapshot.rs:105-126 | the audit is clean exactly if each server cell is matched by a local one at least as new |
| SendQueue.SendQueue.MergePending | crates/app-core/src/bridge_matrix.rs:3103-3114 | the queue keeps the entry with the highest timestamp of a cell |
| SendQueue.MergeMeans | crates/app-core/src/bridge_matrix.rs:3103-3114 | a queued write gives way only to a later one of its cell; of two under one stamp the first stays |
| SendQueue.SendQueue.ScheduleFlush | crates/app-core/src/bridge_matrix.rs:2995-3005 | a flush is started unless one is running |
| SendQueue.SendQueue.EnqueueUpdates | crates/app-core/src/bridge_matrix.rs:2972-2981 | merging, mirroring and scheduling are one step of the specification |
| SendQueue.EnqueueStarts | crates/app-core/src/bridge_matrix.rs:2972-3008 | enqueuing starts a flush with the delay given or leaves the running one its own, and mirrors the queue |
| SendQueue.SendQueue.SendUpdates | crates/app-core/src/bridge_matrix.rs:3024-3067 | a room that is not encrypted is refused and nothing queued; an empty list does nothing; otherwise the writes are queued and flushed at once |
| SendQueue.SendQueue.PendingUpdates | crates/app-core/src/bridge_matrix.rs:2102-2106 | lists each entry once |
| SendQueue.SendQueue.FlushWake | crates/app-core/src/bridge_matrix.rs:3214-3232 | the task ends with an empty queue, otherwise snapshots the queue without draining it |
| SendQueue.WakeSendsAll | crates/app-core/src/bridge_matrix.rs:3212-3232 | a flush that wakes sends everything queued and takes nothing out; it ends exactly if nothing is queued |
| SendQueue.SendQueue.RemoveSettled | crates/app-core/src/bridge_matrix.rs:3246-3256 | removes what was sent unless a newer write of the cell has arrived |
| SendQueue.DropAllMeans | crates/app-core/src/bridge_matrix.rs:3246-3256 | after a batch has settled the queue holds exactly the writes that are later than those of their cells in it |
| SendQueue.SendQueue.FlushOutcome | crates/app-core/src/bridge_matrix.rs:3233-3319 | sent and rejected batches are settled and the delay reset; a retryable failure keeps the queue and doubles the delay between 600 ms and 8 s |
| SendQueue.DelaysDouble | crates/app-core/src/bridge_matrix.rs:3194-3319 | the delay is 300 ms after a batch that settled and 600, 1200, 2400, 4800 and then 8000 after failures in a row |
| Outbox.RestorePendingUpdates | crates/app-core/src/bridge_matrix.rs:2114-2130 | every write of a saved outbox is merged into the workspace under the stamp it had and enters the queue as if enqueued; an empty one does nothing |
| Outbox.ReopenedPageHoldsEveryWrite | crates/app-core/src/bridge_matrix.rs:2107-2130 | over every run of the queue: a page opened again, once it has read the room and replayed its outbox, holds every write ever enqueued that was not refused, or a newer one of its cell |
| Outbox.ReopenedPageShowsTheLastWrite | crates/app-core/src/bridge_matrix.rs:2107-2130 | and if nobody has written the cell since, exactly the value and stamp of that write |
| SendQueue.StepKeeps | crates/app-core/src/bridge_matrix.rs:2972-3319 | every step keeps the invariant of the queue |
| SendQueue.NoWriteIsLost | crates/app-core/src/bridge_matrix.rs:2972-3319 | over every interleaving of enqueueing, waking, landing (late, twice, after a retry or a crash), confirming, retrying, rejecting, crashing and restoring, each enqueued write or a newer one of its cell is queued, on the server or refused, a non-empty queue has a flush running, and the delay is at most 8 s |
| SendQueue.RejectLosesIff | crates/app-core/src/bridge_matrix.rs:3266-3319 | a refused batch leaves a write waiting or on the server exactly if it, or a newer one, has landed or the queue holds a write of its cell newer than the batch's |
| SendQueue.SafeAfterStepIff | crates/app-core/src/bridge_matrix.rs:2972-3319 | every other step keeps each write that was safe, and makes one safe exactly by queueing or landing it or a newer one |
| SendQueue.SafeAtEndIff | crates/app-core/src/bridge_matrix.rs:2972-3319 | over a whole run a write is waiting or on the server at the end exactly if no refusal has lost it since it, or a newer one, was last queued or landed |
| SendQueue.DrainedMeansSame | crates/app-core/src/bridge_matrix.rs:3359-3401 | for a drained cell with no refused write the server's merge has the value and stamp of merging every enqueued write singly |
| SendQueue.OnePassDrains | crates/app-core/src/bridge_matrix.rs:3214-3265 | left alone, one pass of the task empties the queue |
| SendQueue.RestoringIsIdentity | crates/app-core/src/bridge_matrix.rs:2114-2130 | replaying a mirror gives back the queue it mirrored |
| SendQueue.SupersededThenRefused | crates/app-core/src/bridge_matrix.rs:3109-3113 | a write coalesced under a newer one is lost with it when that one is refused, though it was not refused itself |
| History.StateAsOf | crates/app-core/src/history.rs:52-69 | the loop computes the fold of the updates stamped by the target |
| History.AsOfIsMergeOfWindow | crates/app-core/src/history.rs:52-69 | that fold is the merge of exactly the updates the server had stamped by then |
| History.AsOfMeans | crates/app-core/src/history.rs:52-72 | a cell of that state is an update that had reached the room by then, or has no time of the room, and that no other such update outranks |
| History.SortIds | crates/app-core/src/history.rs:98-100 | the ids in order of table, row and column |
| History.RollbackUpdates | crates/app-core/src/history.rs:82-125 | exactly the cells in scope whose value differs are restored, in order, under consecutive stamps |
| History.RollbackIsExact | crates/app-core/src/history.rs:82-125 | with stamps above everything held, applying the rollback gives every cell in scope its value at the point (absent reads Null) and leaves every other cell alone |
| History.RestoresWhatDiffers | crates/app-core/src/history.rs:82-125 | nothing is sent without need: only values that differ, and Null for cells not there at the point |
| History.RecordReads | crates/app-core/src/history.rs:164-186 | what the history row reads after a revert is recorded, cell by cell |
| History.RecordRoundTrip | crates/app-core/src/history.rs:164-215 | recording a revert and listing the log gives the record back, next to those already there |
| History.RollbackAgain | crates/app-core/src/history.rs:102-110 | rolling back again changes no value, but re-sends Null to exactly the cells that exist now and did not at the point |
| History.RevertOfRevert | crates/app-core/src/history.rs:71-125 | once a rollback has reached the timeline, rolling back to just before it gives every cell in scope that had been in step with the room its value from before, whatever the workspace holds by then, and leaves every other cell alone |
| History.ConvergedIsFullReplay | crates/app-core/src/history.rs:133-145 | the converged value of a cell is that of an update no update of the cell outranks, or Null |
| History.ChangeLog | crates/app-core/src/bridge_matrix.rs:2163-2182 | the loop lists every update that changes its cell's value, with the value before |
| History.ChangeLogGrows | crates/app-core/src/bridge_matrix.rs:2163-2182 | one update more adds itself to the log exactly if the latest update of its cell had another value, listed as the previous one, or there was none |
| History.ErasingKeepsTheChangeLog | crates/app-core/src/bridge_matrix.rs:2154-2182 | removing every repeat of a value from the timeline leaves the change log as it was |
| History.ErasingKeepsEveryPoint | crates/app-core/src/history.rs:52-69 | in a single writer's timeline removing the repeats changes no cell's value at any point in time |
| Schema.CreateTableFansOut | crates/app-core/src/schema.rs:198-383 | every cell of a new table is a local schema or registry cell of that table stamped from the clock reading on |
| Schema.ReorderFansOut | crates/app-core/src/schema.rs:618-638 | a reorder writes position i to the i-th column under the i-th stamp |
| Schema.PatchUpdates | crates/app-core/src/schema.rs:644-675 | a patch writes schema cells of the column's row under consecutive stamps |
| Declared.AddedColumnReads | crates/app-core/src/schema.rs:502-611 | after adding a column each of its nine cells reads what the definition says |
| Declared.AddedColumnLeaves | crates/app-core/src/schema.rs:502-611 | and no other cell changes, its deletion time included |
| Declared.AddedColumnComesLast | crates/app-core/src/schema.rs:478-498 | a column without a position comes after every other of its table |
| Declared.FirstColumnComesFirst | crates/app-core/src/schema.rs:478-498 | and right behind the last of them, or first in a table without any |
| Declared.NewTableColumnReads | crates/app-core/src/schema.rs:255-383 | after creating a table each cell of each column reads what the definition says |
| Declared.NewTableReads | crates/app-core/src/schema.rs:198-240 | and so does its registry row, which is not marked deleted |
| Declared.NewTableLeaves | crates/app-core/src/schema.rs:198-383 | and no other cell changes: no deletion time, no other table, no mark on a column |
| Declared.PatchedColumnReads | crates/app-core/src/schema.rs:644-675 | a patch writes the fields it has, each to its own cell, and leaves the others |
| Declared.PatchedColumnLeaves | crates/app-core/src/schema.rs:644-675 | and touches nothing else |
| Declared.DeletedColumnReads | crates/app-core/src/schema.rs:696-725 | deleting a column marks it and records when, and changes nothing else |
| Declared.DeletedTableReads | crates/app-core/src/schema.rs:756-781 | deleting a table likewise |
| Declared.ReorderedReads | crates/app-core/src/schema.rs:618-638 | a reorder gives each column listed its place in the list |
| Defaults.ExistingRowsKeepReading | crates/app-core/src/workspace.rs:328-381 | changing a select column's non-empty default leaves the listed rows, and what each reads in that column, as they were |
| Defaults.LaterRowsReadTheNewDefault | crates/app-core/src/workspace.rs:862-900 | afterwards a row without a value reads the new default, or nothing if it is blank |
| Shown.CutoffMeans | crates/app-core/src/schema.rs:727-754 | of the schema rows that describe a column and have a deletion time the last by name gives its cutoff |
| Shown.StaleMeans | crates/tables-over-matrix/src/table.rs:137-190 | a cell does not show if it was written no later than its table's deletion or its column's cutoff |
| Shown.OwnValueMeans | crates/tables-over-matrix/src/table.rs:137-160 | a row reads in a column the cell it holds there, unless that is outdated or the column is one of the two reserved ones |
| Shown.ListedMeans | crates/app-core/src/workspace.rs:1013-1037 | a row is listed if it has a cell, no tombstone and, once its table has been deleted, a cell written since |
| Shown.BumpableMeans | crates/tables-over-matrix/src/table.rs:301-330 | compaction keeps alive all system cells and the cells that are not outdated and not in a deleted row, and tombstones |
| Shown.DefaultMeans | crates/app-core/src/schema.rs:386-470 | a column reads a default if its last live schema row by name is a select with a value that is not empty, in a table registered and not deleted |
| Shown.CellReads | crates/app-core/src/workspace.rs:862-895 | a cell reads its own value unless that is empty, else the default |
| Shown.DisplayOrderMeans | crates/tables-over-matrix/src/table.rs:165-183 | keyed rows come first, by key, then the others; ties go by id |
| Shown.RowsAreInOrder | crates/tables-over-matrix/src/table.rs:165-192 | the rows of a table are shown in that order, each with its own values |
| Shown.RelyingMeans | crates/app-core/src/workspace.rs:328-370 | the rows that get a retiring default are the listed ones with nothing of their own, if there was a default and the new one differs |
| Deletion.ReaddedColumnStartsBlank | crates/app-core/src/schema.rs:711-725 | a column deleted and added again shows no value from before in any row |
| Deletion.RecreatedTableStartsBlank | crates/app-core/src/schema.rs:756-775 | a table deleted and created again lists no row from before, also on a device that still holds the old cells |
| Deletion.AddingKeepsTheMark | crates/app-core/src/schema.rs:590-611 | adding a deleted column again keeps the mark of when it was deleted |
| FractionalIndex.CountShared | crates/app-core/src/fractional_index.rs:30-32 | the loop counts the digits shared with the padded lower bound |
| FractionalIndex.FindMidpoint | crates/app-core/src/fractional_index.rs:19-59 | the method computes the specified midpoint, panics included |
| FractionalIndex.MidpointIsBetween | crates/app-core/src/fractional_index.rs:19-59 | for two keys in order a midpoint exists, lies strictly between them, is a key and is at most one digit longer than the longer bound |
| FractionalIndex.MidpointIsShortest | crates/app-core/src/fractional_index.rs:19-60 | and no key between the two is shorter |
| FractionalIndex.DividedInTheMiddle | crates/app-core/src/fractional_index.rs:70-108 | of n keys between two the middle one is the key between these |
| FractionalIndex.KeyExistsIff | crates/app-core/src/fractional_index.rs:62-67 | between digit strings a key exists exactly if they are in order and neither ends in a zero; otherwise the call panics |
| FractionalIndex.FindNKeysBetween | crates/app-core/src/fractional_index.rs:70-104 | the loops and the recursion compute the specified keys |
| FractionalIndex.NKeysAreWithin | crates/app-core/src/fractional_index.rs:70-104 | there are always n keys, strictly ascending, well-formed and within the bounds |
| FractionalIndex.AppendsGrowSlowly | crates/app-core/src/fractional_index.rs:76-83 | appending to an empty list, the k-th key is k / 5 copies of z and one digit more |
| FractionalIndex.PrependsGrowSlowly | crates/app-core/src/fractional_index.rs:62-67 | putting rows first, the k-th key is k / 6 zeros and one digit more |
| Moves.FindRow | crates/app-core/src/fractional_index.rs:121-124 | finds the first row with the id, if any |
| Moves.ComputeMoveWrites | crates/app-core/src/fractional_index.rs:116-159 | each error occurs exactly when it should, and otherwise the writes are those for taking the row out and putting it where the position says |
| Moves.MoveLandsWhereAsked | crates/app-core/src/fractional_index.rs:116-160 | the row ends up first, last, right before or right after the target as asked, and the others keep their order |
| Moves.BackfillSorts | crates/app-core/src/fractional_index.rs:153-158 | with a key missing, writing fresh keys to all rows sorts them strictly into the new order |
| Moves.SingleWriteSorts | crates/app-core/src/fractional_index.rs:148-152 | with all keys valid and ascending, one write moves the row and no other key changes |
| Moves.MovePanicsIff | crates/app-core/src/fractional_index.rs:148-152 | with all rows keyed the move panics exactly if the new neighbours' keys are out of order or end in a zero |
| Moves.MoveIsCorrect | crates/app-core/src/fractional_index.rs:116-159 | a move succeeds, needs one write when all rows are keyed, and sorting by key then id shows the rows in the remove-and-insert order |
| Moves.ComputeReorderWrites | ui/src/fractionalIndex.ts:97-118 | the browser's version writes nothing exactly if a row is missing or the two coincide; otherwise it writes what the same rule says for moving one row to the other's place |
| Moves.DropTakesThePlace | ui/src/fractionalIndex.ts:97-118 | the dragged row takes the place of the one it is dropped on, and the others keep their order |
| Calendar.DateRoundTrip | crates/app-core/src/filter_eval.rs:88-110 | every valid date of the proleptic Gregorian calendar survives conversion to its day number and back |
| Calendar.DayRoundTrip | crates/app-core/src/filter_eval.rs:88-110 | every integer converts to a valid date, and back to itself |
| Calendar.NextDayIsOneMore | crates/app-core/src/filter_eval.rs:88-110 | the next calendar day, defined by month lengths and leap years, has the next day number |
| Calendar.DatesOrderAsDays | crates/app-core/src/filter_eval.rs:88-96 | earlier dates have smaller day numbers, and only they |
| Dates.FourDigitYearMeans | crates/app-core/src/filter_eval.rs:106-131 | the days that render as ten characters are those from 0000-01-01 to 9999-12-31 |
| Dates.RenderParse | crates/app-core/src/filter_eval.rs:113-131 | a day of the years 0000 to 9999 renders as ten characters that parse back to it |
| Dates.ReadsDigits | crates/app-core/src/filter_eval.rs:113-125 | four, two and two digits with dashes are read as the day they name, whatever follows, exactly if the month is up to 12 and the day up to 31 |
| Dates.LenientDay | crates/app-core/src/filter_eval.rs:113-125 | a day past the end of its month is read as a day of the next |
| Dates.NoDate | crates/app-core/src/filter_eval.rs:113-117 | texts that are shorter or lack a dash are no dates |
| Dates.DateStringsOrderAsDays | crates/app-core/src/filter_eval.rs:128-131 | for those years date strings compare as the days do |
| Dates.WeekIsUnique | crates/app-core/src/filter_eval.rs:135-140 | the week of a day is the only Monday-to-Sunday span that holds it |
| Dates.FirstMonday | crates/app-core/src/filter_eval.rs:133-140 | 5 January 1970 was a Monday, four days after day zero |
| Dates.TodayMeans | crates/app-core/src/filter_eval.rs:289 | the test for today selects exactly the cells that hold today |
| Dates.ThisWeekMeans | crates/app-core/src/filter_eval.rs:290-296 | the test for this week selects exactly the days of the Monday-to-Sunday week that holds today |
| Dates.MovingSpanMeans | crates/app-core/src/filter_eval.rs:147-156 | a moving span selects exactly the days between its two offsets from today, in either order |
| Dates.MovingSpanShifts | crates/app-core/src/filter_eval.rs:143-146 | on a later day a moving span selects the days that lie exactly as much later |
| Dates.FixedSpanMeans | crates/app-core/src/filter_eval.rs:157-166 | a fixed span selects exactly the days between its dates, in either order, whatever today is |
| Dates.UnresolvedSelectsNothing | crates/app-core/src/filter_eval.rs:147-166 | a span that cannot be resolved selects nothing, and an empty cell is never selected |
| Csv.WriteCsv | crates/app-core/src/archive.rs:104-116 | the loops write the specified text |
| Csv.ParseCsv | crates/app-core/src/archive.rs:130-181 | the character loop computes the specified records |
| Csv.ReadField | crates/app-core/src/archive.rs:118-126 | a written field reads back as itself, whatever it contains |
| Csv.RoundTripIff | crates/app-core/src/archive.rs:104-181 | writing and parsing gives back the records other than blank ones exactly if the text does not begin with a byte-order mark |
| Csv.ReadsAnySpelling | crates/app-core/src/archive.rs:128-181 | records read back from any way of writing them: fields with or without quotes, lines ended by LF, CR LF or CR, the last end missing or not, a byte-order mark or none |
| Csv.OpenQuoteTakesTheRest | crates/app-core/src/archive.rs:137-149 | a quote that is never closed takes the rest of the text |
| Csv.QuotedIff | crates/app-core/src/archive.rs:118-126 | a written field is quoted exactly if it holds a comma, a quote or a line end, or begins or ends in a blank |
| Csv.EscapedDoubles | crates/app-core/src/archive.rs:122-123 | escaping goes part by part and doubles a quote |
| Csv.EscapedLeaves | crates/app-core/src/archive.rs:122-123 | and changes no text without quotes |
| Csv.BomIsLost | crates/app-core/src/archive.rs:131 | a mark that begins the text is taken for the file's own: the first field loses it |
| MultiValue.ScanValues | crates/app-core/src/archive.rs:272-294 | the scan computes the specified values, for every call on which it ends |
| MultiValue.SplitMulti | crates/app-core/src/archive.rs:254-296 | the method computes the specified split, for every call on which it ends |
| MultiValue.SticksIff | crates/app-core/src/archive.rs:272-294 | a turn leaves the cursor where it is exactly if an empty value is known, no separator stands there and no other known value does |
| MultiValue.ScanEndsIff | crates/app-core/src/archive.rs:272-294 | the scan ends exactly if it comes to no such cursor |
| MultiValue.AlwaysEndsWithoutEmpty | crates/app-core/src/archive.rs:254-296 | without an empty known value every call ends |
| MultiValue.EmptyKnownValueSticks | crates/app-core/src/archive.rs:263-280 | a column whose only known value is empty hangs on exactly the cells that have a value |
| MultiValue.RoundTripIff | crates/app-core/src/archive.rs:254-300 | splitting a joined cell gives back every list of known values exactly if these can be told apart: each is trimmed, non-empty and not led by a comma, each one with a comma has a piece that is not known, and none written before a list of others reads as a longer one |
| MultiValue.NoCommonStartIsToldApart | crates/app-core/src/archive.rs:254-300 | a simpler condition that is enough: the values are trimmed, non-empty and not led by a comma, and none is the start of another |
| MultiValue.NothingIsDiscarded | crates/app-core/src/archive.rs:254-296 | for any known values: apart from commas and white space the values of a split hold, in order, exactly the characters of the cell |
| MultiValue.MixedRoundTrip | crates/app-core/src/archive.rs:254-300 | lists that mix known values with unknown ones come back as they were, each unknown value whole and in its place |
| MultiValue.OnlySeparatorsAreSkipped | crates/app-core/src/archive.rs:289-293 | behind a known value all commas and blanks are skipped and nothing else |
| MultiValue.PrefixIsAmbiguous | crates/app-core/src/archive.rs:263-269 | an instance: if two values and their comma-joined form are all known, the joined one reads back as the pair |

## Left out

- Workspaces.Workspace.CreateTable: takes the columns as the id-sorted list the code sorts its hash map into, and assumes the stamps fit 64 bits.
- Workspaces.Workspace.UpdateColumn: assumes stamps below saturation.
- Workspaces.Workspace.BuildRollback: assumes events without captured routing and stamps below saturation.
- Timeline.BoundedLookback: assumes a clock below saturation and steps that revive nothing, as do the coverage results; `Timeline.RevivesIff` and `Operations` say which steps those are.
- Coverage.PageStopIsSound: speaks of live cells; `Agreement.LiveRowsShowTheSame` says what they show and `Agreement.SurelyListedIff` what may differ.
- Sessions.SessionsAgreeWithTheRoom: is about a room with one writer, read by a device that writes nothing, whose events can all be read and which never misses one while connected; a walk ended by the coverage rule alone must have a bumped cell on its last page.
- Restart.RestartsEqualFullReplay: covers walks that the coverage rule alone did not end, over history that can all be read, with any writers; walks it ended are the subject of `Sessions.SessionsAgreeWithTheRoom`, and a device that misses part of the stream while syncing live is not covered.
- SendQueue.NoWriteIsLost: the mirror is written whenever the queue changes, and a restore comes before new edits, as the code asks of its caller.
- SendQueue.SendQueue.FlushOutcome: leaves out the local revert of refused cells; the code does not keep convergence there while a newer edit of the cell waits.
- SendQueue.SendQueue.SendUpdates: leaves out the bounded wait for the writes to leave the queue.
- History.ChangeLog: takes the edits already filtered by table and sorted by server timestamp, and leaves out the entries for reverts.
- Defaults.ExistingRowsKeepReading: speaks of the patched column, and assumes no deletion stamped past the clock; formula columns are not modelled.
- FractionalIndex.MidpointIsBetween: is for base-62 keys; other characters panic only where the code looks at them.
- Dates.DateStringsOrderAsDays: years outside 0000 to 9999 do not render with four digits.
- Calendar.DateRoundTrip: integers are unbounded, so offsets that overflow 64 bits are not modelled.
- Csv.ParseCsv: characters are Unicode scalar values, not bytes.
- Views, table renaming and table order: one-cell or few-cell fan-outs like those modelled.
- Formula evaluation, JSON text, serialized sizes: opaque values and an arbitrary size function.
- Room membership, encryption, login, network errors and timing: outside the room seen as an append-only stream.
- The superseded bump manager, archive manifests, type inference, command-line output and the user interface other than its ordering keys.
