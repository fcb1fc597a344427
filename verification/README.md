# NBTerminal, verified

A Dafny model of the logic under NBTerminal's windows. NBTerminal is a desktop
terminal written in Go; beneath its widgets are two small concurrent protocols,
a tab workspace with a second registry beside it, a log that repairs itself
after a crash, a migration that must not lose or double anything, a search
language, shell quoting, path rewriting and id uniquifying. Each is modelled
here in the form the program gives it: objects that the program updates in
place are classes whose methods are proved against functions on whole states,
and the laws are proved of those functions, over all inputs and all runs.

`dafny verify dfyconfig.toml` checks everything.

## What is modelled

**Output batcher** (`OutputBatcher`, `InteractiveDrain`). Worker goroutines hand
text to a batcher that keeps at most one GUI callback outstanding. The lock is
dropped between taking the text, appending it and re-checking, and the toolkit
is called outside the lock. A state machine interleaves all critical sections
of any number of threads with the toolkit; the class holds the sections
themselves. Text is conserved, one wake-up is outstanding exactly while one is
needed, callbacks follow the text they were registered after, and the
transport's exit callback sees its complete output.

**Transport registry** (`RuntimeRegistry`, `RegistrySteps`, `ShellExit`).
`Replace` takes its lock twice and starts a process in between, racing with
`Close`, `Release` and `CloseAll`. Every started transport is in exactly one
place at all times, and one that has left the table never comes back. Composed
with the batcher: the exit text of a shell comes once, after all its output, and
never from a superseded transport.

**Workspace, command runs, batch close** (`Workspace`, `WorkspaceLaws`,
`TabEffects`, `CloseHistory`, `CommandRuns`, `BatchClose`, `BatchFocus`). The tab
array is edited in place: shifting moves, a pinned prefix, a bounded close history that
is last in, first out. A second registry maps sessions to run numbers and has to
agree with the tabs in every reachable state. Batch close collects ids first and
looks each one up again in the shrinking array; which tab is active afterwards
is characterised for every scope.

**History** (`HistoryLog`, `HistoryLines`, `HistoryCrash`, `HistoryJson`,
`HistoryLimits`, `HistoryTable`, `HistoryMigration`). The log is a file of bytes that a crash may cut at any
point. The record format enters through four laws (`HistoryLog.Lawful`), which
`HistoryJson` shows to be those of a JSON object. The migration moves the file
into a transactional table, with a crash possible between any two steps.

**Search** (`SearchLexer`, `SearchWords`, `SearchTerms`, `SearchRank`,
`SearchMeaning`, `SearchQueries`, `SearchFilter`). A two-pass tokenizer, a
validator and a parser written separately, negation, and a rank that is a minimum over alternatives.
Beside the laws stands what every kind of query finds, said of the text that is
typed.

**Streams and quoting** (`Utf8`, `Utf8Runs`, `ByteLines`, `StreamCollector`,
`ShellWords`).
Line collection over any chunking with UTF-8 repair (RFC 3629, section 4), and
two shell quoting functions against a lexer of the shell command language
(XCU sections 2.2 and 2.3 of IEEE Std 1003.1-2017).

**Groups, ids, host monitor** (`GroupPaths`, `GroupEdits`, `UniqueIds`,
`ConnectionIds`, `DuplicateProfile`, `HostMonitor`). Prefix tests on strings
against prefixes of component lists; unbounded suffix loops that end by
counting; a channel of capacity one that always ends up holding the latest
update.

`Text`, `Profiles` and `Outcomes` hold what the others share.

## Where the program does not do what one would expect

Each of these is proved; where a property fails, at a concrete input and with
the exact condition.

- The validator trims the field name of a search term and the parser does not,
  so the quoted term `"name :"` is free text to the parser and an error to the
  validator (`SearchTerms.ParserTakesMore`, `SearchTerms.ParserTakesMoreIff`).
- `port:022` and `port:+22` pass validation and match no profile
  (`SearchRank.PaddedPortMatchesNothing`, `SearchMeaning.SignedPortFindsNothing`,
  `SearchRank.PortMatchesIff`).
- After removing the group `A` a row in `A/A` is still under `A`
  (`GroupEdits.RemovedGroupMayRemain`, `GroupEdits.StillUnderAfterRemovalIff`),
  and after renaming `A/B` to `A` a row in `A/B/B` is still under `A/B`
  (`GroupEdits.RenamedGroupMayRemain`, `GroupEdits.StillUnderAfterRenameIff`).
- Renaming a group back does not undo the rename when the new path already held
  rows (`GroupEdits.RenameBackMayMerge`, `GroupEdits.RenameBackRestoresIff`).
- `Append` accepts a record of any length, but a file loads only if all its
  records are below the limit of the line scanner, and a torn record that is
  longer than the repair window blocks every later append
  (`HistoryLimits.LongCommandBlocksLoading`, `HistoryCrash.LoadsIffShort`;
  `HistoryLimits.TornLongCommandBlocksAppending`,
  `HistoryCrash.TornRecordRepairsIff`).
- Blank lines at the start of a history file are ignored, while one behind a
  record is an error (`HistoryCrash.LeadingBlankLineIsIgnored`,
  `HistoryLines.LoadsIff`).
- An entry appended to the table with the time 1970-01-01 exactly makes every
  load fail whose window holds its row (`HistoryTable.EpochEntryBlocksLoading`,
  `HistoryTable.AppendedReadsBackIff`, `HistoryTable.BadRowStays`).
- A comment in guis/terminal_context_menu.go says that closing every peer makes
  the target active by itself. It does exactly if the target was active, or if
  the active tab is not pinned and the target is either not pinned or the last
  pinned tab (`BatchFocus.ClosingPeersReachesTargetIff`); a pinned tab that is
  active stays active (`BatchFocus.PinnedTabStaysActive`). The program selects
  the target afterwards, which helps unless there is no native tab strip
  (`BatchFocus.OthersFocusesTargetIff`).
- The branch of `runAsync` that takes a registration back is never reached
  (`CommandRuns.RunLaunches`).

## Model

| member | source | states |
|---|---|---|
| `OutputBatcher.GuiOutputBatcher.Enqueue` | guis/guis.go:594-607 | empty text changes nothing; other text is appended to what waits, and the caller must schedule exactly when no drain was scheduled |
| `OutputBatcher.GuiOutputBatcher.AfterFlush` | guis/guis.go:612-625 | the callback is queued last, and the caller must schedule exactly when no drain was scheduled |
| `OutputBatcher.GuiOutputBatcher.TakeText` | guis/guis.go:627-634 | first section of drain: all waiting text is handed out and nothing else changes |
| `OutputBatcher.GuiOutputBatcher.Recheck` | guis/guis.go:636-649 | second section of drain: with text waiting one more drain is due; otherwise the callbacks are handed out and the slot is freed |
| `OutputBatcher.StepKeepsInv` | guis/guis.go:594-649 | every critical section of every thread keeps the invariant: slot, text, callback order, wake-up credit |
| `OutputBatcher.TextConservation` | guis/guis.go:594-649 | in every interleaving, text shown, in flight and waiting is together all text enqueued, in lock order |
| `OutputBatcher.OneDrainOutstanding` | guis/guis.go:594-649 | the scheduled flag holds exactly while one drain is owed, queued or before its last unlock; never two; nothing waits without one |
| `OutputBatcher.CallbacksAfterTheirText` | guis/guis.go:612-649 | callbacks run at most once, in registration order, each after all text enqueued before it is on the screen |
| `OutputBatcher.DrainsAreBounded` | guis/guis.go:594-649 | in every run there are at most as many drains as calls |
| `OutputBatcher.NoLostWakeUp` | guis/guis.go:594-649 | no internal step is possible exactly when nothing is owed; every internal step uses up rank; at rest everything is shown and every callback has run |
| `OutputBatcher.EventuallyDelivers` | guis/guis.go:594-649 | from any reachable state the batcher delivers everything in a bounded number of its own steps |
| `InteractiveDrain.DrainInteractiveOutput` | guis/interactive_gui.go:158-173 | the loop hands every nonempty chunk over in order and registers the exit callback last |
| `InteractiveDrain.ExitAfterAllOutput` | guis/interactive_gui.go:137-173 | however the goroutine and the GUI interleave, the exit callback runs at most once and only when the whole output is on the screen |
| `InteractiveDrain.ExitIsDelivered` | guis/interactive_gui.go:137-173 | once the transport has ended and the GUI is idle, the exit callback has run |
| `ShellExit.ExitTextOnceAndLast` | guis/interactive_gui.go:134-173 | however output, GUI and all users of the registry interleave, the exit text is written at most once, when the whole output is on the screen |
| `ShellExit.ExitTextIffCurrent` | guis/interactive_gui.go:134-152 | the callback writes the exit text exactly when its transport is still current under its id, and the transport is then gone for good |
| `ShellExit.GoneShellIsSilent` | guis/interactive_gui.go:134-152 | once a transport has been superseded, closed or released, no exit text is ever written for it |
| `ShellExit.SupersededShellIsSilent` | guis/interactive_gui.go:134-152 | the same in every state reachable from the start of the program |
| `RuntimeRegistry.InteractiveRuntimeRegistry.Start` | guis/interactive_runtime.go:35-55 | which of the four outcomes occurs, and that the table changes only on success |
| `RuntimeRegistry.InteractiveRuntimeRegistry.Publish` | guis/interactive_runtime.go:80-94 | second lock of Replace: swap and cancel the old one if it is still there, otherwise cancel the new one and leave the table |
| `RuntimeRegistry.InteractiveRuntimeRegistry.Replace` | guis/interactive_runtime.go:60-94 | undisturbed, it is refused as not found exactly for a blank id or one that is not open, and otherwise succeeds exactly if the successor starts; a failure changes nothing |
| `RuntimeRegistry.InteractiveRuntimeRegistry.Close` | guis/interactive_runtime.go:135-152 | removes and cancels the entry of the id, exactly if there is one |
| `RuntimeRegistry.InteractiveRuntimeRegistry.CloseAll` | guis/interactive_runtime.go:172-184 | empties the table and cancels each transport in it |
| `RuntimeRegistry.InteractiveRuntimeRegistry.Release` | guis/interactive_runtime.go:157-170 | removes the entry only if it still is the given transport |
| `RuntimeRegistry.StepKeepsPlaced` | guis/interactive_runtime.go:35-184 | each step of each thread keeps every started transport in exactly one place |
| `RuntimeRegistry.EveryTransportAccountedFor` | guis/interactive_runtime.go:35-184 | in every interleaving a started transport is current under one id, owed a cancel by one thread, or cancelled exactly once |
| `RuntimeRegistry.NothingLeaks` | guis/interactive_runtime.go:35-184 | with no call in progress, exactly the started transports that are not current have been cancelled, once each |
| `RuntimeRegistry.GoneForever` | guis/interactive_runtime.go:60-94 | a superseded, closed or released transport never becomes current again |
| `RuntimeRegistry.SupersededReleaseIsHarmless` | guis/interactive_runtime.go:157-170 | after a successful Replace, the late Release of the old transport changes nothing, at any later time |
| `RuntimeRegistry.PublishFailsOnlyWhenOvertaken` | guis/interactive_runtime.go:60-94 | Replace fails at its second lock exactly when the transport it saw first has gone for good; the table then stays as it is |
| `RegistrySteps.StartIsItsStep` | guis/interactive_runtime.go:35-55 | an undisturbed Start changes table and cancels as its step of the interleavings does |
| `RegistrySteps.ReplaceIsItsSteps` | guis/interactive_runtime.go:60-94 | an undisturbed Replace is look, start, publish and cancel in turn, stopping where it fails |
| `RegistrySteps.CloseIsItsSteps` | guis/interactive_runtime.go:135-152 | an undisturbed Close is the removal followed by the cancel, the latter only if there was an entry |
| `RegistrySteps.ReleaseIsItsStep` | guis/interactive_runtime.go:157-170 | an undisturbed Release changes the table as its step does |
| `Workspace.ShiftThenPut` | guis/session_workspace.go:134-140 | shifting a stretch by one and overwriting its end is taking the element out and reinserting it |
| `Workspace.SessionWorkspace.Open` | guis/session_workspace.go:69-91 | the whole new workspace: fresh id, instance number above all of the profile, new tab last and active |
| `Workspace.SessionWorkspace.Select` | guis/session_workspace.go:93-100 | only the active index and that tab's attention mark change |
| `Workspace.SessionWorkspace.Move` | guis/session_workspace.go:116-148 | the in-place shift yields the reinsertion at the target and refocuses the active tab |
| `Workspace.SessionWorkspace.MoveActive` | guis/session_workspace.go:105-111 | one step left or right by the rules of Move |
| `Workspace.SessionWorkspace.SetAttention` | guis/session_workspace.go:250-264 | a muted or unknown tab is refused and nothing changes |
| `Workspace.SessionWorkspace.SetBellMuted` | guis/session_workspace.go:268-282 | muting clears the attention mark of that tab alone |
| `Workspace.SessionWorkspace.SetActiveDraft` | guis/session_workspace.go:163-169 | the draft of the active tab alone changes; without an active tab nothing does |
| `Workspace.SessionWorkspace.SetActiveOutput` | guis/session_workspace.go:171-177 | the output of the active tab alone is replaced |
| `Workspace.SessionWorkspace.AppendActiveOutput` | guis/session_workspace.go:179-185 | text is added at the end of the active tab's output |
| `Workspace.SessionWorkspace.AppendOutput` | guis/session_workspace.go:187-198 | text is added at the end of the output of the first tab with the id, a blank id not excepted |
| `Workspace.SessionWorkspace.SetTerminalTitle` | guis/session_workspace.go:203-214 | the trimmed title goes to the tab with the id; a blank or unknown id is refused |
| `Workspace.SessionWorkspace.SetCustomTitle` | guis/session_workspace.go:219-230 | the trimmed label goes to the tab with the id and leaves the shell's title alone |
| `Workspace.SessionWorkspace.SetWorkingDirectory` | guis/session_workspace.go:234-245 | the trimmed directory goes to the tab with the id; a blank one is refused |
| `Workspace.SessionWorkspace.SetInputLocked` | guis/session_workspace.go:287-298 | the input lock of the tab with the id alone changes |
| `Workspace.SessionWorkspace.SetPinned` | guis/session_workspace.go:302-335 | the in-place shift yields the reinsertion at the boundary of the pinned tabs |
| `Workspace.SessionWorkspace.BeginRun` | guis/session_workspace.go:337-348 | the active idle tab takes the run id; otherwise nothing changes |
| `Workspace.SessionWorkspace.FinishRun` | guis/session_workspace.go:350-364 | the first running tab with the run id takes the status; otherwise nothing changes |
| `Workspace.SessionWorkspace.Close` | guis/session_workspace.go:366-390 | a running or pinned tab stays; otherwise it goes, the active index follows, and at most 20 closed profiles are kept |
| `Workspace.SessionWorkspace.ReopenLastClosed` | guis/session_workspace.go:402-414 | the newest closed profile is opened; a profile that cannot be opened stays in the history |
| `Workspace.SessionWorkspace.DuplicateActive` | guis/session_workspace.go:420-434 | opens the active profile again, in the tab's current directory |
| `WorkspaceLaws.RunKeepsInv` | guis/session_workspace.go:69-434 | every run, setters included, keeps: pinned tabs first, ids distinct and issued, (profile, instance) distinct, active index valid or -1 when empty, run id set exactly while running, muted tabs unmarked, at most 20 closed profiles |
| `WorkspaceLaws.IdsNeverReused` | guis/session_workspace.go:69-91 | an issued id whose tab is gone never comes back |
| `WorkspaceLaws.MoveReorders` | guis/session_workspace.go:116-148 | a move succeeds exactly inside one partition; it is a permutation, keeps the others' order and every field, and the active tab stays active |
| `WorkspaceLaws.SetPinnedReorders` | guis/session_workspace.go:302-335 | pinning changes that field alone, moves the tab to the boundary, keeps the others' order and the active tab |
| `WorkspaceLaws.CloseRemovesOne` | guis/session_workspace.go:366-390 | closes exactly an idle unpinned tab; the others keep order and fields, and another active tab stays active |
| `WorkspaceLaws.ReopenUndoesClose` | guis/session_workspace.go:402-414 | closing then reopening gives a fresh idle tab of the same profile and the close history of before |
| `CloseHistory.CloseHistoryIsLifo` | guis/session_workspace.go:366-414 | after any number of closes, up to 20 reopenings open the closed profiles again, the last closed first, and leave what the bound allows of the older history |
| `TabEffects.OpenAddsFreshTab` | guis/session_workspace.go:69-91 | a new tab is idle, unpinned, unmuted, unlocked and shows the welcome text; its id is new and its number is one more than the largest of the profile |
| `TabEffects.DuplicateCopiesActive` | guis/session_workspace.go:420-434 | the copy is such a tab with the active profile, in the current directory if that is known |
| `TabEffects.SelectAcknowledges` | guis/session_workspace.go:93-100 | selecting makes the tab active, clears its mark and changes nothing else |
| `TabEffects.BellMarks` | guis/session_workspace.go:250-282 | a bell marks an unmuted tab, muting clears the mark and silences later bells, unmuting brings none back, selecting undoes a bell |
| `TabEffects.WritesItsField` | guis/session_workspace.go:187-298 | each setter writes its own field of the tab with the id, trimmed where the program trims, and a blank directory is refused |
| `TabEffects.WritesActiveField` | guis/session_workspace.go:163-185 | the setters for the active tab write theirs, and refuse without an active tab |
| `TabEffects.RunBeginsIff` | guis/session_workspace.go:337-348 | a run begins exactly on an active tab that is not running, under an id that is not blank |
| `TabEffects.RunThenFinish` | guis/session_workspace.go:337-364 | a run begun and finished changes the status of the active tab and nothing else |
| `TabEffects.MoveActiveSwaps` | guis/session_workspace.go:105-111 | moving by one exchanges the active tab with its neighbour, exactly if that exists in the same partition |
| `CommandRuns.App.BeginCommandRunForSession` | guis/guis.go:3252-3268 | a blank or running session is refused; otherwise it is registered under a new number |
| `CommandRuns.App.FinishCommandRun` | guis/guis.go:3270-3279 | the entry goes exactly if it holds this number |
| `CommandRuns.App.EnsureRuntimeSession` | guis/guis.go:2949-2964 | the active tab of the profile, else a newly opened one |
| `CommandRuns.App.RunAsync` | guis/guis.go:3368-3388 | ensure, register, begin, with the registration taken back if the tab refuses |
| `CommandRuns.App.Complete` | guis/guis.go:3409-3449 | a completion with a known number finishes its run; any other changes nothing |
| `CommandRuns.TokenInjective` | guis/guis.go:3382 | session:number tokens are equal only for the same session and number |
| `CommandRuns.BeginRegisters` | guis/guis.go:3252-3268 | the trimmed id is registered under the next number and every other entry stays; a blank id and a registered one are refused |
| `CommandRuns.RunLaunches` | guis/guis.go:3360-3388 | with agreeing registries a run is refused exactly for a profile without id or a session already running, and otherwise launches |
| `CommandRuns.RunUsesActiveTab` | guis/guis.go:2949-2964 | if the active tab is the profile's, no tab is opened; a running one refuses and nothing changes, any other runs the command under id:number |
| `CommandRuns.RunOpensTab` | guis/guis.go:2949-2964 | otherwise exactly one tab is opened, last and active, and the command runs there; a blank profile id changes nothing |
| `CommandRuns.CompletionFindsItsTab` | guis/guis.go:3409-3449 | the completion of a launched command sets the status of its own running tab and changes no other tab |
| `CommandRuns.OtherOpsKeepRuns` | guis/session_workspace.go:69-434 | every other workspace operation, setters included, leaves the set of running (id, token) pairs alone |
| `CommandRuns.RegistriesAgree` | guis/guis.go:3252-3451 | in every reachable state a tab runs exactly when the registry holds its id with its token, every key is an open tab, and no command finishes twice |
| `CommandRuns.StaleCompletionIsIgnored` | guis/guis.go:3270-3279 | a completion that is not under way changes nothing |
| `BatchClose.BatchCloseSessionIds` | guis/terminal_context_menu.go:354-377 | the ids of the unpinned tabs in scope, in order; none if one of them runs |
| `BatchClose.CloseSessionById` | guis/guis.go:2976-2996 | a missing, pinned or running tab stays; otherwise the workspace closes the tab the id now has |
| `BatchClose.CloseSessionBatch` | guis/terminal_context_menu.go:406-428 | nothing changes if an affected tab runs; otherwise the ids are closed from the last to the first |
| `BatchClose.BatchCloseResult` | guis/terminal_context_menu.go:354-428 | the tabs left are exactly the target, the pinned ones and those out of scope, in order, and an active tab among them stays active |
| `BatchClose.KeptIsFilter` | guis/terminal_context_menu.go:354-377 | a tab is left exactly when it is not affected |
| `BatchClose.BatchCloseLeaves` | guis/terminal_context_menu.go:354-428 | exactly the unpinned tabs left of the target, right of it, or all but it leave, the others keep their order; blocked exactly if one of those runs |
| `BatchFocus.BatchCloseFocus` | guis/terminal_context_menu.go:406-428 | after a batch close the tab that was active is active if it is kept, else the first kept tab on its right, else the last on its left |
| `BatchFocus.ClosingPeersReachesTargetIff` | guis/terminal_context_menu.go:406-428 | when closing the others makes the target active by itself |
| `BatchFocus.OthersFocusesTargetIff` | guis/terminal_context_menu.go:237-428 | with the selection that follows the target is active exactly if there is a native tab strip or the closing reached it |
| `BatchFocus.PinnedTabStaysActive` | guis/terminal_context_menu.go:406-428 | with three tabs, the first pinned and active, closing the peers of the second leaves the first active |
| `HistoryLog.PrepareHistoryAppend` | terminal/log.go:136-177 | the file becomes its repaired form or is refused unchanged, and only listed contents are ever on disk |
| `HistoryLog.Append` | terminal/log.go:95-130 | the repaired file plus one record, and every content in between is a crash state |
| `HistoryLog.Load` | terminal/log.go:179-250 | the last limit records of the file; blank lines in front are skipped, a torn last record is dropped, any other bad line is an error |
| `HistoryLog.LoadForConnection` | terminal/log.go:256-284 | the last limit records of one connection, in order |
| `HistoryLog.OfConnectionFilters` | terminal/log.go:256-284 | exactly the entries of the connection are kept, each once and in order |
| `HistoryLines.LoadsIff` | terminal/log.go:179-250 | a file loads exactly if every line is below 10 MiB and, behind the blank lines in front, every line that ends with a newline can be decoded |
| `HistoryLines.LoadsLineByLine` | terminal/log.go:226-250 | the entries are those lines in order, and the text behind the last newline if it can be decoded |
| `HistoryLines.BadLineFailsLoading` | terminal/log.go:241-247 | a finished line that is no record fails the load, whatever the other lines are |
| `HistoryLines.MalformedStaysUnmigrated` | terminal/log.go:286-323 | with such a line the migration fails and leaves file, table and marker alone |
| `HistoryCrash.WindowFindsNewline` | terminal/log.go:136-164 | the 10 MiB + 1 window always reaches the newline before a torn record below the limit |
| `HistoryCrash.PrepareRepairs` | terminal/log.go:136-177 | a torn file becomes exactly the surviving records: the newline is restored to a whole record and a torn one is cut off |
| `HistoryCrash.AppendSucceeds` | terminal/log.go:95-177 | the next append succeeds and adds its record after the surviving ones |
| `HistoryCrash.LoadGivesSurviving` | terminal/log.go:179-250 | loading a torn file gives exactly the surviving records, one that lost only its newline included |
| `HistoryCrash.CrashKeepsIntact` | terminal/log.go:95-177 | a crash after any byte of the repair or the write leaves records and one torn prefix, with nothing lost |
| `HistoryCrash.NothingFinishedIsLost` | terminal/log.go:95-250 | over any sequence of appends cut short anywhere, loading gives the old records and the attempted ones in order, every finished one among them |
| `HistoryCrash.LoadsIffShort` | terminal/scanner.go:10-21 | a file of whole records loads exactly if all are below the scanner's limit |
| `HistoryCrash.TornRecordRepairsIff` | terminal/log.go:136-165 | the repair succeeds exactly if the torn record fits the window |
| `HistoryCrash.LeadingBlankLineIsIgnored` | terminal/log.go:226-249 | a blank line in front of a file, with or without CR, does not change what loading gives |
| `HistoryLimits.LongCommandBlocksLoading` | terminal/log.go:95-250 | a command of 10 MiB is appended to an empty history, which then cannot be loaded |
| `HistoryLimits.TornLongCommandBlocksAppending` | terminal/log.go:136-165 | a crash inside the record of a longer command can leave a file to which nothing can be appended |
| `HistoryTable.Database.AppendHistory` | internal/database/database.go:305-320 | one row is added last; a missing time is taken from the clock |
| `HistoryTable.TurnRound` | internal/database/database.go:354-358 | the loop over two indices reverses the page in place |
| `HistoryTable.Database.LoadHistory` | internal/database/database.go:322-360 | the newest limit rows of one connection, or of all, oldest first |
| `HistoryTable.OfStoredFilters` | internal/database/database.go:322-360 | exactly the rows of the stored connection are selected, each once and in order |
| `HistoryTable.Database.MigrateHistory` | internal/database/database.go:362-408 | all rows and the marker, or nothing; known keys are skipped; true exactly if a row is new |
| `HistoryTable.FreshKeysAreInserted` | internal/database/database.go:362-388 | the rows inserted are, in order and at the end, exactly those whose key is neither in the table nor in an earlier row |
| `HistoryTable.LoadSqlite` | terminal/log.go:379-421 | succeeds exactly if the key is set and every row of the window is consistent; then the last limit entries of the connection |
| `HistoryTable.LoadsIff` | terminal/log.go:379-421 | a load succeeds exactly if the key is set and each row in the window has connection and time in the clear as in the payload |
| `HistoryTable.ChosenFilters` | terminal/log.go:379-421 | exactly the entries of the connection are given, each once and in order |
| `HistoryTable.AppendSqlite` | terminal/log.go:348-377 | one sealed row is added last exactly if the key is present |
| `HistoryTable.AppendedReadsBackIff` | terminal/log.go:348-421 | when every row could be read before, the load after an append, for any connection and limit, succeeds unless the entry's time was 1970-01-01 exactly and the clock's was not; it then gives the old entries and the new one |
| `HistoryTable.BadRowStays` | terminal/log.go:379-421 | with one inconsistent row, loads for one connection and unlimited loads fail from then on, whatever is appended |
| `HistoryTable.EpochEntryBlocksLoading` | terminal/log.go:348-421 | the entry of 1970-01-01 appended to an empty table makes the unlimited load fail |
| `HistoryMigration.HistoryStore.MigrateLegacy` | terminal/log.go:286-323 | the call is one full attempt of the step machine; it succeeds exactly if the file can be read and sealed, and reports whether a row was new |
| `HistoryMigration.CommitImports` | internal/database/database.go:362-388 | committing a file, again or for the first time, leaves each entry once and in order, and other sources alone |
| `HistoryMigration.StepKeepsInv` | terminal/log.go:286-346 | every step, crashes included, keeps: a content is imported whole or not at all, and one that is gone is imported |
| `HistoryMigration.NothingIsLostOrDoubled` | terminal/log.go:286-346 | in every run each file content ever seen is still the file or is in the table exactly once and in order, never in part |
| `HistoryMigration.AttemptFinishesIff` | terminal/log.go:286-323 | from any reachable state an undisturbed attempt removes the file exactly if it can be read and sealed; otherwise nothing changes |
| `HistoryMigration.RetryAddsNothing` | internal/database/database.go:362-388 | an attempt after a crash between commit and removal adds no row |
| `SearchLexer.ConnectionSearchTerms` | guis/guis.go:2450-2489 | the loop computes the terms of the lexer |
| `SearchLexer.TrimSameTerms` | guis/guis.go:2170-2182 | trimming a clause before splitting it does not change its terms |
| `SearchLexer.ConnectionSearchClauses` | guis/guis.go:2165-2211 | on every string the two passes give what one pass with shared quote and escape state gives, failures included |
| `SearchLexer.RenderReadsBack` | guis/guis.go:2165-2211 | alternatives of trimmed nonblank terms, printed quoted and escaped, read back as they were |
| `SearchLexer.ReadIsWellFormed` | guis/guis.go:2165-2211 | whatever is read is nonempty, nonblank and trimmed, and survives printing and reading |
| `SearchWords.PlainSearchReadsAs` | guis/guis.go:2165-2211 | unquoted words between blanks are the terms and pipes separate alternatives, each of which needs a word |
| `SearchWords.OpenQuoteReachesEnd` | guis/guis.go:2446-2489 | a quote that is not closed reaches to the end, where a backslash stands for itself |
| `SearchWords.BackslashInside` | guis/guis.go:2446-2489 | inside quotes a backslash escapes a quote or a backslash and stays in front of any other character |
| `SearchTerms.ConnectionSearchValidationError` | guis/guis.go:2224-2281 | the nested loops report the first error in reading order |
| `SearchTerms.ValidatorIff` | guis/guis.go:2224-2318 | the validator accepts a term exactly if the parser takes it with the spaces around its field name removed |
| `SearchTerms.ParserTakesMoreIff` | guis/guis.go:2224-2318 | the parser takes a rejected term exactly if its field name is spaced and invalid without the spaces |
| `SearchTerms.ParserTakesMore` | guis/guis.go:2224-2318 | the query "name :" in quotes is read as one term, which the parser takes as free text and the validator rejects |
| `SearchTerms.AcceptedIff` | guis/guis.go:2224-2281 | a query is accepted exactly if it is blank, or it can be read and the parser takes every tightened term |
| `SearchTerms.AcceptedHasNoInvalidTerm` | guis/guis.go:2091-2113 | no term of an accepted query is invalid or empty, so the later checks never fail |
| `SearchMeaning.ErrorsOfFields` | guis/guis.go:2239-2276 | which error each field reports for which values |
| `SearchMeaning.OtherErrors` | guis/guis.go:2240-2276 | an unknown field is reported by name and a lone minus as such; text without a colon is never an error |
| `SearchMeaning.PipeErrors` | guis/guis.go:2229-2239 | the three reports for a missing alternative |
| `SearchMeaning.ReportedIsFirst` | guis/guis.go:2240-2280 | the error reported is that of the first term, as typed, that has one |
| `SearchMeaning.FieldsFind` | guis/guis.go:2403-2430 | name, group, host, endpoint and description find a part of the field in lower case, type finds all of it |
| `SearchMeaning.SpacesBeforeValue` | guis/guis.go:2295-2305 | spaces between the colon and the value do not matter |
| `SearchMeaning.FreeTextFinds` | guis/guis.go:2432-2444 | a word without a field is looked for in name, group, type, host, address and description |
| `SearchMeaning.FavoriteFinds` | guis/guis.go:2373-2386 | favorite:true and favorite:false |
| `SearchMeaning.PortFinds` | guis/guis.go:2387-2396 | port:n is an error outside 1 to 65535 and otherwise finds the SSH profiles with that port, 0 standing for 22 |
| `SearchMeaning.SignedNumbers` | guis/guis.go:2264-2268 | numbers are read with either sign |
| `SearchMeaning.SignedPortFindsNothing` | guis/guis.go:2387-2396 | a port with a plus sign is accepted and finds nothing |
| `SearchMeaning.UsedFinds` | guis/guis.go:2332-2367 | used:nd is an error outside 1 to 3650 and otherwise finds what was used in the last n days of 24 hours; today is one day |
| `SearchMeaning.MinusExcludes` | guis/guis.go:2283-2318 | a minus sign turns the meaning of a term round and not its validity |
| `SearchMeaning.ClauseMeaning` | guis/guis.go:2127-2160 | an alternative matches exactly if all positive terms hold and no excluded one does |
| `SearchRank.ConnectionUsedMatches` | guis/guis.go:2346-2367 | used, unused, or used within the last N days and not in the future |
| `SearchRank.ConnectionSearchTermRank` | guis/guis.go:2369-2444 | a rank is given exactly if the term holds of the profile, and which one |
| `SearchRank.PortMatchesIff` | guis/guis.go:2387-2396 | an accepted port value matches exactly if it is printed the way the profile's port is |
| `SearchRank.PaddedPortMatchesNothing` | guis/guis.go:2387-2396 | 022 is an accepted port value that holds of no profile |
| `SearchRank.ConnectionSearchClauseRank` | guis/guis.go:2127-2160 | a clause matches exactly if all positive terms hold and no excluded one does, shortcut or not |
| `SearchRank.ShortcutKeepsMatch` | guis/guis.go:2132-2143 | where the name shortcut applies the clause matches anyway, and the rank only gets better |
| `SearchMeaning.NameRanks` | guis/guis.go:2127-2143 | a word that is the name ranks 0, one that begins it 1, one inside it 2 |
| `SearchMeaning.OtherRanks` | guis/guis.go:2369-2444 | any other term that holds ranks 3 |
| `SearchMeaning.RanksAddUp` | guis/guis.go:2145-2160 | the rank of several terms is the sum of their ranks |
| `SearchMeaning.SeveralTermsScore` | guis/guis.go:2145-2160 | what one more term adds to a clause: nothing if excluded, 2 for a word in the name, otherwise its rank |
| `SearchRank.ConnectionSearchRankAt` | guis/guis.go:2091-2125 | a profile matches by the meaning below, and its rank is the least over the matching alternatives |
| `SearchRank.MatchMeaning` | guis/guis.go:2091-2160 | a nonblank query matches exactly if it is accepted and has an alternative whose positive terms all hold while no excluded one does |
| `SearchQueries.ReadSearchFinds` | guis/guis.go:2091-2318 | a search that reads as some alternatives matches a profile exactly if no word has an error and all words of some alternative are found |
| `SearchQueries.PlainSearchFinds` | guis/guis.go:2091-2318 | the same from the typed text of unquoted words, blanks and pipes |
| `SearchQueries.QuotedSearchFinds` | guis/guis.go:2091-2318 | the same for words in quotes, whatever they contain |
| `SearchRank.CaseDoesNotMatter` | guis/guis.go:2091-2092 | queries that differ in letter case match the same profiles with the same scores |
| `SearchFilter.FilterConnections` | guis/guis.go:1971-2003 | a blank query lists everything in order; any other gives the ranked rows, stably sorted |
| `SearchFilter.StableSortSorts` | guis/guis.go:1986-1997 | sorted by key, the same rows, equal keys in their old order |
| `SearchFilter.ResultIsMatching` | guis/guis.go:1971-2003 | the results are exactly the matching profiles, each as often as listed |
| `SearchFilter.ResultIsOrdered` | guis/guis.go:1986-1997 | the results are ordered by best rank, lower-case name, id |
| `SearchFilter.EarlierIsBetter` | guis/guis.go:1986-1997 | an earlier result has the better rank, or the same and a smaller lower-case name, or both the same and no greater id; strings compare at their first difference |
| `SearchFilter.RankIsLeastScore` | guis/guis.go:2114-2125 | the rank of a result is the score of one of the alternatives, and none scores lower |
| `Utf8.NormalizeIsValid` | terminal/scanner.go:23-28 | the result is well-formed UTF-8 and well-formed text is left alone |
| `Utf8.NormalizeSplits` | terminal/scanner.go:23-28 | repair distributes over every ASCII byte |
| `Utf8Runs.EncodedIsValid` | terminal/scanner.go:23-28 | every encoded sequence of Unicode scalar values is well formed |
| `Utf8Runs.ValidIsEncoded` | terminal/scanner.go:23-28 | and every well-formed text is one |
| `Utf8Runs.NormalizeReplacesRuns` | terminal/scanner.go:23-28 | each maximal run of bytes at which no encoded character starts becomes EF BF BD, and what lies between stays |
| `Utf8Runs.EveryStreamIsWoven` | terminal/scanner.go:23-28 | every stream consists of such pieces and runs |
| `StreamCollector.SshStreamCollector.Write` | terminal/executor.go:224-246 | the lines emitted and the bytes kept depend on the whole stream only |
| `StreamCollector.SshStreamCollector.Flush` | terminal/executor.go:248-256 | a nonempty remainder becomes the last line, with its CR |
| `StreamCollector.Collect` | terminal/executor.go:216-262 | every division of a stream into writes gives the same lines and the same text |
| `StreamCollector.ShowsEveryLine` | terminal/executor.go:224-262 | of lines ending with LF or CR LF the lines are shown without their breaks, a nonempty rest as it is, each repaired |
| `ByteLines.LinesRebuild` | terminal/executor.go:229-240 | a stream is its lines with their newlines and the rest, and none of these holds a newline |
| `ByteLines.LinesAreUnique` | terminal/executor.go:229-240 | there is only one way to cut a stream so |
| `StreamCollector.LineWiseRepair` | terminal/executor.go:224-262 | repairing line by line gives the lines of the repaired stream |
| `StreamCollector.TruncateHistoryOutput` | terminal/log.go:65-78 | the repaired text if it has at most 65536 bytes; otherwise its longest prefix within that before the start of a character, followed by the marker with both lengths |
| `ShellWords.ShellQuoteRoundTrip` | terminal/executor.go:351-356 | the shell reads a quoted string as one word equal to it, with nothing to expand |
| `ShellWords.RemoteCommandTokens` | terminal/executor.go:344-349 | the remote command is cd, the directory as one argument, &&, and the tokens of the command |
| `ShellWords.ShellClipboardWord` | guis/connection_context_menu.go:141-154 | the scan decides between the bare and the quoted form |
| `ShellWords.ClipboardWordRoundTrip` | guis/connection_context_menu.go:141-154 | the copied word is read as one word equal to the string |
| `ShellWords.BareIff` | guis/connection_context_menu.go:141-154 | the word is copied without quotes exactly if it is not empty and consists of the characters listed |
| `ShellWords.SshCommandWords` | guis/connection_context_menu.go:119-139 | the copied command is read as five words: ssh, -p, the port, --, and the trimmed host, behind the trimmed user name and @ if there is one |
| `ShellWords.SshCommandIff` | guis/connection_context_menu.go:119-139 | there is a command exactly for an SSH profile with a host and a port of at most 65535, 0 included |
| `GroupPaths.NormalizeConnectionGroup` | guis/connection_manager.go:546-555 | the path of the trimmed nonempty components |
| `GroupPaths.NormalizedIsStable` | guis/connection_manager.go:546-555 | normalizing keeps the components and is idempotent |
| `GroupPaths.ContainsIsPrefix` | guis/group_rename.go:54-58 | on normalized paths the string prefix test is the prefix test on component lists |
| `GroupPaths.GroupContainsIff` | guis/group_rename.go:54-58 | a group contains another exactly if its nonempty component list is a prefix |
| `GroupEdits.RenameConnectionGroup` | guis/connection_manager.go:565-595 | all refusals; otherwise exactly the rows under the old components get the new ones in front, everything else unchanged |
| `GroupEdits.RenameMeaning` | guis/connection_manager.go:565-595 | the reason of every refusal; otherwise the rows under the old path, and only their groups, get the new components in front, and their number is given |
| `GroupEdits.RenameBackRestoresIff` | guis/connection_manager.go:565-595 | renaming back restores every group exactly if no row was under the new path before |
| `GroupEdits.StillUnderAfterRenameIff` | guis/connection_manager.go:565-595 | when a renamed row is still under the old path |
| `GroupEdits.RenamedGroupMayRemain` | guis/connection_manager.go:565-595 | the row A/B/B is still under A/B after A/B has been renamed to A |
| `GroupEdits.RenameBackMayMerge` | guis/connection_manager.go:565-595 | renaming A to B and back puts a row that was in B into A |
| `GroupEdits.RemoveConnectionGroup` | guis/group_remove.go:39-69 | all refusals; otherwise the node's component is dropped from the rows under it, or the fallback replaces an empty path |
| `GroupEdits.RemoveMeaning` | guis/group_remove.go:39-69 | the reason of every refusal; otherwise the rows under the path, and only their groups, lose its last component or get the fallback, and their number is given |
| `GroupEdits.RemovalDeletesOneComponent` | guis/group_remove.go:39-69 | exactly one component disappears from an affected path, at the node's depth |
| `GroupEdits.StillUnderAfterRemovalIff` | guis/group_remove.go:39-69 | when a row is still under a removed group |
| `GroupEdits.RemovedGroupMayRemain` | guis/group_remove.go:39-69 | the edit that removes A succeeds and leaves the row A/A under A |
| `GroupEdits.AffectedCount` | guis/group_rename.go:107-118 | the number announced is the number of rows the edit changes |
| `GroupEdits.GroupOptionPaths` | guis/connection_manager.go:493-504 | the groups offered are exactly the normalized paths that contain a row |
| `UniqueIds.UniqueCandidate` | guis/guis.go:336-349 | the loop ends within one more candidate than there are taken ids, on a free one |
| `UniqueIds.UniqueIsFirst` | guis/guis.go:336-349 | the id taken is the first free candidate |
| `UniqueIds.UniqueIsNumbered` | guis/guis.go:336-349 | the base itself if it is free, else the base, a dash and the least free number from 2 on |
| `UniqueIds.RowsAreNormalized` | guis/guis.go:314-349 | what each row becomes: its numbered id, its empty fields filled, the rest as it was |
| `UniqueIds.NormalizeLocked` | guis/guis.go:314-334 | the list rewritten in place is the normalized list |
| `UniqueIds.NormalizedIdsAreDistinct` | guis/guis.go:314-349 | afterwards ids are pairwise distinct, trimmed and nonempty, and only empty fields were filled |
| `UniqueIds.GoodIdsStay` | guis/guis.go:314-349 | distinct trimmed ids are not changed |
| `UniqueIds.NormalizeTwice` | guis/guis.go:314-349 | a second pass at any later time changes nothing |
| `ConnectionIds.SlugIsSlug` | terminal/connection.go:133-138 | the result has safe characters only and no outer dash, and a slug is left alone |
| `ConnectionIds.SlugJoinsPieces` | terminal/connection.go:133-138 | the safe pieces of the lower-case text joined by single dashes, without outer dashes |
| `ConnectionIds.UniqueConnectionId` | terminal/connection.go:140-153 | a free id made from the slug, recorded as seen |
| `ConnectionIds.Normalize` | terminal/connection.go:54-83 | the assignments in order give the normalized connection |
| `ConnectionIds.FieldsAreNormalized` | terminal/connection.go:54-83 | what each field becomes, defaults included |
| `ConnectionIds.NormalizeConnections` | terminal/connection.go:116-131 | an empty list becomes the local shell; any other is normalized in order |
| `ConnectionIds.ListIsNormalized` | terminal/connection.go:116-153 | each connection as normalized alone, its id the slug made unique among those in front |
| `ConnectionIds.NormalizedAreDistinct` | terminal/connection.go:116-153 | ids are pairwise distinct slugs and the other fields are settled |
| `ConnectionIds.NormalizeConnectionsTwice` | terminal/connection.go:116-153 | a second pass changes nothing |
| `DuplicateProfile.CopyNameInjective` | guis/connection_manager.go:883-891 | different numbers give different names, letter case aside |
| `DuplicateProfile.DuplicateConnectionProfile` | guis/connection_manager.go:868-898 | the first number that clashes with no id and no name, among the first ids + names + 1; all other fields kept |
| `DuplicateProfile.CopySpelled` | guis/connection_manager.go:868-898 | id and name of copy number k, which clash exactly with an equal id or a name equal but for letter case and outer spaces |
| `HostMonitor.Session.Collect` | hostmonitor/session.go:78-111 | a success advances the revision, a failure keeps the snapshot, a failure after cancellation publishes nothing |
| `HostMonitor.Session.Publish` | hostmonitor/session.go:113-127 | send, else drain and send, with a consumer receiving between any two operations |
| `HostMonitor.PublishAddsLast` | hostmonitor/session.go:113-127 | the second send never fails: the new update ends up in the channel and at most one stale one is dropped |
| `HostMonitor.LatestIsNeverLost` | hostmonitor/session.go:58-127 | in every run the received updates are published ones in order, and the last published one is received or waiting |
| `HostMonitor.UpdatesAreFaithful` | hostmonitor/session.go:78-111 | in every run each published update carries the number of successes, the last successful data, the times of the last collection and the last success, the last error and the failures since |
| `HostMonitor.FailureIsPublished` | hostmonitor/session.go:88-99 | a failure under a living context publishes a Degraded update with its error, the old snapshot and one failure more; after cancellation nothing happens |
| `HostMonitor.SuccessIsPublished` | hostmonitor/session.go:100-111 | a success publishes the next revision and clears error and failures |
| `HostMonitor.OneUpdateEach` | hostmonitor/session.go:58-111 | there are exactly as many updates as ticks with a success or an uncancelled failure |

## Left out

- FLTK windows, drawing, menus, the native tab strip and event loops nested in modal dialogs: one GUI callback is one step, except inside the batcher.
- HTTP API, configuration files, file permissions and atomic file replacement.
- SQLite itself: a table is a sequence of rows in id order and a transaction is one step.
- Encryption and the keyed fingerprint: opening inverts sealing, a ciphertext is never empty, and fingerprints of different files differ. Nothing is said about duplicates in the migration of connections, which would depend on deterministic encryption.
- A second process that changes the legacy file while a migration is between its steps.
- SSH and PTY transports: a transport is an identity that starts at most once and a sequence of chunks. No claim is made about deadlocks inside them, nor about input, resize and interrupt calls, which only look the transport up.
- The field `profileSelection` of the workspace, with its setter and getter.
- An undisturbed `CloseAll` is not shown to be its steps; the other calls of the transport registry are.
- CommandRuns.App.RunAsync: saving the profile beforehand, drafts, notices and the output of the command are not modelled; its output goes through the batcher.
- BatchClose.CloseSessionById: the transport and the monitor of the closed tab, which are stopped at the same time, are not part of the workspace.
- Nil receivers and I/O errors other than a crash.
- Loading of table rows whose ciphertext cannot be opened.
- Locale tables: localized texts are parameters.
- Unicode tables: lower-casing is a parameter that is idempotent, keeps spaces spaces and leaves safe ASCII characters alone; strings are sequences of code points except where bytes matter.
- Parsing of RFC 3339 times and the wrap of nanoseconds outside the years 1678 to 2262: times are integers.
- The order and the indented labels of the group options.
- Expansion in the shell: a word with an unquoted character that would start an expansion is marked, not expanded; IO_NUMBER tokens, here-documents and the builtin meaning of `cd -` are not modelled.
- The ticker and the Stopped phase of the host monitor, and the closing of its channel.
- HistoryCrash.NothingFinishedIsLost: for records below the limit of the line scanner, since longer ones do break the file; `LoadsIffShort` and `TornRecordRepairsIff` give the exact limits.
- WorkspaceLaws.RunKeepsInv: FinishRun is taken with a final status, which is what its only caller passes.
- SearchFilter.FilterConnections: the library's stable sort is a stable insertion sort; how the library sorts is not modelled.
- HistoryMigration.NothingIsLostOrDoubled: a legacy file is placed only where there is none, as the program never replaces it.
- OutputBatcher.EventuallyDelivers: liveness is stated as a bounded sequence of the batcher's own steps, without fairness between threads.
