# Certificate upload: a verified model

This project models the hard parts of a system that uploads, validates and browses passport
certificates (LDIF files, master lists), and proves what they do for every input and every run.

**LDIF structure viewer** (`frontend/src/components/LdifStructure.tsx`). A distinguished name is cut at
its unescaped commas, reversed, freed of a fixed base name, and walked through a trie of nodes that is
built in place; the trie is rendered with generated ids.

- `DnSyntax` — the scanner, the grammar of its pieces, unescaping, and the printer of RFC 4514
  (sections 2.4 and 3).
- `DnPaths` — from names to paths and from paths back to displayed names.
- `Tries`, `DnTrie` — which nodes a list of paths calls for; the heap tree, which refines the list.
- `TreeViewer`, `DnRender`, `DnOutput`, `DnIds`, `DnIdSafety`, `DnIdClashes` — the recursion over the heap,
  what its output shows position by position, when its ids are distinct, and which RDNs make them clash.

**Upload page** (`frontend/src/pages/FileUpload.tsx`) with the server that feeds it
(`services/pkd-management/src/common/progress_manager.cpp`). Progress messages carry cumulative counters
and bounded windows of recent items. They can be lost, repeated or late, and interleave with timers,
polls, resets and the queue of state updates.

- `Delivery`, `ProgressServer`, `EventLog`, `LogRuns`, `LogContent`, `UploadDelivery`, `ReasonRuns` — the event
  log.
- `StageProgress`, `UploadStages`, `StageEffects` — percentages, the three stages, the overall status, and
  what each message, poll and request does to them.

**Codecs** — `Hex` (section 8 of RFC 4648) and `Uuid` (sections 4.1.1, 4.1.3 and 4.4 of RFC 4122), on
machine words.

**Smaller algorithms** — `Grouping` and `DuplicateGroups` (two-level grouping with stable sorting),
`Asn1Tree` (index paths as ids), `SearchRequests` (the newest search wins), `WeightedChoice`.

`Sequences` and `JsText` hold list helpers, `trim` and decimal text.

Objects that the code updates in place are classes; each of their methods is proved to take the state to
a function of the old state, and the theorems are about runs of those functions. Loops are loops, proved
against recursive functions.

## What the proofs found

- `trim` takes the escaped space at the end of a value and leaves its backslash, and unescaping leaves the
  digits of a null character printed as `\00`. A name printed as RFC 4514 asks is read back exactly when no
  value ends in whitespace or holds a null character (`DnSyntax.Rfc4514RoundTrip`, with
  `DnSyntax.TrailingSpaceIsLost` and `DnSyntax.NullIsReadAsDigits`).
- A node's `fullDn` parses back to its path exactly when the topmost component is not empty and no lower
  component ends inside an escape (`DnPaths.FullDnReparses`). The names `a, ` and `a\ ,b` have nodes for
  which it does not (`DnPaths.EmptyTopIsNotShown`, `DnPaths.CutEscapeIsMerged`).
- Ids of different tree nodes can be equal: `a-dn-b` and `b,a` clash. RDNs without hyphens are safe, but
  less is enough: `DnIdSafety.SafeRdn`. It is the exact condition on a single RDN: every component outside
  it is misread as a shorter one in some tree (`DnIdClashes.SafeIffNeverMisread`).
- The comment at `frontend/src/pages/FileUpload.tsx:541` speaks of the first occurrence of each stage;
  the code logs every change of stage, including returns to an earlier one. The model follows the code.
- `doUpload` sets `PROCESSING` and `resetStages` overwrites it at once, so that status is never observed
  (`UploadStages.AlwaysSettled`).
- For an LDIF file the server reports completion first
  (`services/pkd-management/src/processing_strategy.cpp:206`) and the end of parsing after it
  (`services/pkd-management/src/handlers/upload_handler.cpp:405`). When that last message reaches the page,
  the upload ends finalized with its parse stage in progress again, until the one-second timer fires or a
  poll finds the record (`UploadStages.LdifUploadEndsOutOfOrder`,
  `UploadStages.OrderReturnsIffParsingCatchesUp`). A poll that finds the upload completed closes the
  stream, so after one the message does not arrive.
- That timer completes the parse stage of the next upload, if it is started before the timer fires
  (`UploadStages.LeftoverTimerBreaksOrder`).
- After a reset the ids of the log start at 1 exactly when no entry was still queued at that moment
  (`LogRuns.IdsStartAtOneIff`, `LogRuns.IdsCanStartLate`): the counter is reset at once, but queued
  entries take their ids later.
- The counts logged for a validation reason are strictly increasing exactly when every rise received is
  a new maximum; one late message makes the page log a count twice (`ReasonRuns.LateMessageRepeatsReason`).
- Five of the stage names the server declares have no ending the page knows, and are the only ones it
  would show as idle (`StageProgress.IdleIffUnreported`). They are declared but never sent.
- A search whose reply brings no statistics leaves those of an older search on display
  (`SearchRequests.OlderStatisticsStay`).
- Latest-wins rests on one assumption about the HTTP library, and exactly on that one: an aborted request
  ends as canceled (`SearchRequests.OnlyNewestCommitsIff`, `SearchRequests.LateReplyWouldWin`).

## Model

| member | source | states |
|---|---|---|
| DnSyntax.SplitDn | frontend/src/components/LdifStructure.tsx:55-82 | the scanner's loop returns the trimmed pieces between unescaped commas, without an empty last piece |
| JsText.TrimIsTheOnlyCut | frontend/src/components/LdifStructure.tsx:70-78 | `trim` returns the text that is left without the outer whitespace, and no other text is that |
| JsText.WhitespaceIs | frontend/src/components/LdifStructure.tsx:70-78 | the 25 code points that `trim` removes |
| DnSyntax.EscapedIffOddRun | frontend/src/components/LdifStructure.tsx:58-68 | the `escaped` flag is up exactly after an odd run of backslashes |
| DnSyntax.SplitIsTheOnlyCut | frontend/src/components/LdifStructure.tsx:60-75 | a list of pieces without unescaped commas joins to the name if and only if it is the scanner's list: cutting is lossless and unique |
| DnSyntax.JoinRawPieces | frontend/src/components/LdifStructure.tsx:60-79 | the untrimmed pieces, joined with commas, are the input |
| DnSyntax.RawPiecesOfJoin | frontend/src/components/LdifStructure.tsx:60-79 | joining well-formed pieces and cutting again gives the same pieces |
| DnSyntax.SplitLosesOnlyAFinalComma | frontend/src/components/LdifStructure.tsx:77-79 | before trimming, the kept pieces join to the input or to the input without its final comma |
| DnSyntax.ComponentsAreComponents | frontend/src/components/LdifStructure.tsx:55-82 | every returned component is trimmed and holds no unescaped comma |
| DnSyntax.ComponentsAreTrimmedPieces | frontend/src/components/LdifStructure.tsx:70-78 | every component is its raw piece without exactly the outer whitespace |
| DnSyntax.UnescapeReads | frontend/src/components/LdifStructure.tsx:37-39 | unescaping drops exactly the backslashes that escape something, for every way to read a text |
| DnSyntax.EveryTextIsReadable | frontend/src/components/LdifStructure.tsx:37-39 | every text can be read in such a way, stray backslashes and line terminators included |
| DnSyntax.UnescapeUndoesPrinting | frontend/src/components/LdifStructure.tsx:37-39 | unescaping a printed value gives the value, whatever else than commas and backslashes the printer escaped |
| DnSyntax.ComponentRoundTrip | frontend/src/components/LdifStructure.tsx:37-39 | a printed, trimmed, unescaped value comes back if and only if `trim` has nothing to cut |
| DnSyntax.PrintParseRoundTrip | frontend/src/components/LdifStructure.tsx:55-82 | print, join, split, unescape is the identity on a list of values if and only if the last one is not empty and each survives `trim`, for any escaping policy |
| DnSyntax.PaddedRoundTrip | frontend/src/components/LdifStructure.tsx:55-82 | the same with any whitespace around the commas: the values are read back if and only if the last padded text is not empty and each value survives `trim` |
| DnSyntax.Rfc4514RoundTrip | frontend/src/components/LdifStructure.tsx:52-82 | names printed by section 2.4 of RFC 4514, with short names or with dotted identifiers and encoded values, are read back if and only if no text value ends in whitespace or holds a null character |
| DnSyntax.NullIsReadAsDigits | frontend/src/components/LdifStructure.tsx:38 | a concrete name whose null character, printed as a hexadecimal pair, comes back as two digits |
| DnSyntax.TrailingSpaceIsLost | frontend/src/components/LdifStructure.tsx:78 | a concrete name whose escaped final space comes back as a backslash |
| DnPaths.RemoveBaseDn | frontend/src/components/LdifStructure.tsx:87-103 | the flag loop strips the base exactly from paths that properly extend it |
| DnPaths.StripBaseIs | frontend/src/components/LdifStructure.tsx:88-102 | exactly the names below the base lose it, and the base itself stays |
| DnPaths.StripBaseMerges | frontend/src/components/LdifStructure.tsx:98-102 | stripping makes two paths equal exactly when they are equal already or one is the base followed by the other |
| DnPaths.PathsHoldComponents | frontend/src/components/LdifStructure.tsx:118-119 | every component of an entry's path is trimmed and free of unescaped commas |
| DnPaths.FullDnIsJoin | frontend/src/components/LdifStructure.tsx:127-130 | the accumulated `fullDnPath` is the reversed path joined with commas when the top component is not empty |
| DnPaths.FullDnSkipsEmptyTops | frontend/src/components/LdifStructure.tsx:127-130 | empty topmost components do not show in `fullDn` |
| DnPaths.FullDnReparses | frontend/src/components/LdifStructure.tsx:129-139 | splitting and reversing `fullDn` gives the path back if and only if the top component is not empty and no lower one ends inside an escape |
| DnPaths.EmptyTopIsNotShown | frontend/src/components/LdifStructure.tsx:77-130 | a concrete name with a blank topmost component, whose `fullDn` leaves it out |
| DnPaths.CutEscapeIsMerged | frontend/src/components/LdifStructure.tsx:70-130 | a concrete name with a component cut inside an escape, whose `fullDn` parses as one component |
| Tries.IsNodeMeansPrefix | frontend/src/components/LdifStructure.tsx:129-142 | the nodes are exactly the prefixes of the entry paths |
| Tries.PrefixOfNode | frontend/src/components/LdifStructure.tsx:129-142 | the nodes are closed under prefixes |
| Tries.ChildKeysAreNodes | frontend/src/components/LdifStructure.tsx:132-141 | a node's child keys are exactly the keys that lead to a node, each listed once |
| Tries.ChildKeysInOrder | frontend/src/components/LdifStructure.tsx:132-141 | child keys are in the order in which the entries bring them |
| Tries.EntriesAtAre | frontend/src/components/LdifStructure.tsx:117-144 | the entries of a node are exactly those with its path, in input order |
| Tries.ChildAdded | frontend/src/components/LdifStructure.tsx:132-140 | inserting a new leaf under the current node keeps the trie's shape and takes the walk one key further |
| Tries.WalkOnto | frontend/src/components/LdifStructure.tsx:141 | an existing child is the node of the longer prefix, and following it changes nothing |
| DnTrie.DnTreeNode.constructor | frontend/src/components/LdifStructure.tsx:133-139 | a new node has the given labels, no children and no entries |
| DnTrie.Descend | frontend/src/components/LdifStructure.tsx:129-142 | one step of the walk gets or creates the child, and the heap stays a trie of the paths so far |
| DnTrie.WalkAndAppend | frontend/src/components/LdifStructure.tsx:121-144 | the walk ends at the node of the path, and the heap then refines the list with the entry added |
| DnTrie.Append | frontend/src/components/LdifStructure.tsx:144 | the entry is added to the node at its path and to no other |
| DnTrie.InsertEntry | frontend/src/components/LdifStructure.tsx:117-145 | one pass of the loop: a heap that refines a list of entries refines the list with the entry at the end |
| DnTrie.NewTree | frontend/src/components/LdifStructure.tsx:109-115 | the root alone refines the empty list |
| DnTrie.BuildDnTree | frontend/src/components/LdifStructure.tsx:108-148 | for every list of entries: a node for exactly the prefixes of the paths, no node at two paths, child maps in order of first appearance, and at each node, in input order, exactly the entries with its path |
| DnIds.LeavesHoldEntries | frontend/src/components/LdifStructure.tsx:117-145 | a node below the root without children holds an entry |
| DnIds.NodesShowTheirPath | frontend/src/components/LdifStructure.tsx:126-144 | every node's level is its depth, it is bound in its parent under its own RDN, and its `fullDn` parses back under the stated condition and no other |
| DnRender.ConvertEntries | frontend/src/components/LdifStructure.tsx:162-177 | the nested loops produce one node for each entry, with one child for each attribute |
| DnRender.ConvertChildren | frontend/src/components/LdifStructure.tsx:157-159 | the children are rendered in order of insertion |
| DnRender.ConvertDnTreeToTreeNode | frontend/src/components/LdifStructure.tsx:153-189 | the recursion over the heap ends and equals the rendering of the list of entries |
| DnRender.TreeData | frontend/src/components/LdifStructure.tsx:201-205 | building and rendering together is a function of the list of entries |
| DnIds.RenderedIds | frontend/src/components/LdifStructure.tsx:153-189 | the ids of the output, in order, are the ids of the nodes, entries and attributes below the path |
| DnOutput.OutputShows | frontend/src/components/LdifStructure.tsx:153-189 | at the position of every node, entry and attribute, the output has the name, value, icon, id and number of children that belong to it, the root's label and the entry count included |
| DnOutput.EveryPositionShows | frontend/src/components/LdifStructure.tsx:153-189 | every position of the output belongs to such a node, entry or attribute |
| DnIds.EachShownOnce | frontend/src/components/LdifStructure.tsx:153-189 | the output shows exactly the existing nodes, entries and attributes, each once |
| DnIds.WeightSplits | frontend/src/components/LdifStructure.tsx:117-145 | the entries below a node are those at the node and those below its children |
| DnIds.RenderingConserves | frontend/src/components/LdifStructure.tsx:153-189 | output nodes = trie nodes + entries + attributes |
| DnIdSafety.SiblingIdsAreDistinct | frontend/src/components/LdifStructure.tsx:158-171 | the children of a rendered node have distinct ids, whatever the RDNs are |
| DnIdSafety.AttributeIdsAreDistinct | frontend/src/components/LdifStructure.tsx:163-168 | the attributes of a rendered entry have distinct ids |
| DnIdSafety.IdDecodes | frontend/src/components/LdifStructure.tsx:158-171 | with safe RDNs an id determines the node, entry or attribute it was made for |
| DnIdSafety.TreeIdsDecode | frontend/src/components/LdifStructure.tsx:153-189 | two things of one tree with the same id are the same when every RDN of the tree is safe |
| DnIdSafety.AllIdsAreDistinct | frontend/src/components/LdifStructure.tsx:153-189 | no two ids of the whole output are equal when every RDN is safe |
| DnIdClashes.NameForHasPath | frontend/src/components/LdifStructure.tsx:55-119 | every path of components below the root is the path of some name |
| DnIdClashes.SafeIffNeverMisread | frontend/src/components/LdifStructure.tsx:153-189 | the exact condition on one RDN: it is safe if and only if no tree of entries shows a thing below it under the id of a thing below a shorter RDN |
| DnIdClashes.UnsafeRdnsClash | frontend/src/components/LdifStructure.tsx:153-189 | every component that is not safe is misread in the tree of some entries, whose output shows one id twice |
| DnIdClashes.ClashIsShown | frontend/src/components/LdifStructure.tsx:153-189 | two different things of a tree with one id make the output show that id twice |
| DnIdSafety.HyphenFreeIsSafe | frontend/src/components/LdifStructure.tsx:158 | an RDN without a hyphen is safe |
| DnIdClashes.IdsCanClash | frontend/src/components/LdifStructure.tsx:158 | two concrete entries whose tree holds one id twice |
| ProgressServer.ValidationStatistics.constructor | services/pkd-management/src/common/progress_manager.h:259-270 | counters at zero and empty windows describe empty histories |
| ProgressServer.ValidationStatistics.AddProcessingError | services/pkd-management/src/common/progress_manager.cpp:226-272 | the window stays the last 100 errors of the history, the counters stay its length and its counts by class |
| ProgressServer.ValidationStatistics.AddValidationLog | services/pkd-management/src/common/progress_manager.cpp:274-312 | the window stays the last 200 validation logs, the counter their number |
| ProgressServer.ValidationStatistics.ToJson | services/pkd-management/src/common/progress_manager.cpp:384-404 | a message carries the last 100 errors, the last 200 validation logs and the totals of one moment, the duplicate count and the reasons |
| ProgressServer.ClassesPartition | services/pkd-management/src/common/progress_manager.cpp:236-249 | parse, database and directory errors add up to all errors |
| ProgressServer.ClassesOfTypes | services/pkd-management/src/common/progress_manager.cpp:238-249 | which error types are database and directory failures, and that all others are parse errors |
| ProgressServer.CountIsNumber | services/pkd-management/src/common/progress_manager.cpp:236-249 | the counter of a class is the number of the errors of that class |
| Delivery.TakeFromSnapshot | frontend/src/pages/FileUpload.tsx:562-566 | what `slice(-added)` of a window yields: the history's items not yet counted, or the whole window if more are missing |
| Delivery.TakeKeepsOrder | frontend/src/pages/FileUpload.tsx:559-577 | taking a message keeps the log a selection of the history in its order, each position at most once |
| Delivery.TakeKeepsComplete | frontend/src/pages/FileUpload.tsx:607-631 | the log stays the counted history as long as gaps fit the window, and is shorter for ever after one that does not |
| EventLog.EventLogPanel.HandleProgressUpdate | frontend/src/pages/FileUpload.tsx:522-632 | one message queues exactly its entries and moves exactly its counters |
| EventLog.EventLogPanel.AddEntry | frontend/src/pages/FileUpload.tsx:531-535 | an entry is queued without an id |
| EventLog.EventLogPanel.LogStage | frontend/src/pages/FileUpload.tsx:537-557 | an error, a change of stage or a milestone is queued, in this priority, and the stage and the milestone are remembered |
| EventLog.EventLogPanel.SurfaceErrors | frontend/src/pages/FileUpload.tsx:559-577 | the new errors are queued in order, and the counter becomes the maximum |
| EventLog.EventLogPanel.SurfaceDuplicates | frontend/src/pages/FileUpload.tsx:579-587 | the increment is queued when the count rises |
| EventLog.EventLogPanel.SurfaceReasons | frontend/src/pages/FileUpload.tsx:589-606 | reasons above their previous count are queued, successes are skipped, and the whole record replaces the previous one |
| EventLog.EventLogPanel.SurfaceLogs | frontend/src/pages/FileUpload.tsx:607-631 | the new validation logs are queued in order, and the counter becomes the maximum |
| EventLog.EventLogPanel.Reset | frontend/src/pages/FileUpload.tsx:219-227 | a clear is queued, and all counters are zero at once |
| EventLog.EventLogPanel.Flush | frontend/src/pages/FileUpload.tsx:531-535 | queued updates are applied in order, and each entry takes the next id |
| LogRuns.ViewOfStep | frontend/src/pages/FileUpload.tsx:522-632 | what the log shows once flushed grows at its end only, by the entries of the message, and is empty after a reset |
| LogRuns.ProjectionsOfMessage | frontend/src/pages/FileUpload.tsx:537-631 | kind by kind, what one message adds |
| LogContent.LogSaysWhatArrived | frontend/src/pages/FileUpload.tsx:537-587 | over any run the stage errors, stage changes, milestones and duplicate increments shown are exactly those that the messages since the last reset call for, in order |
| LogContent.EntriesOfMessageInOrder | frontend/src/pages/FileUpload.tsx:537-631 | within one message at most one entry about its stage comes first, then errors, duplicates, reasons and validation logs |
| LogContent.ReasonsOfMessage | frontend/src/pages/FileUpload.tsx:593-604 | a message logs exactly those of its reasons that are no success and more frequent than before, in their order |
| LogContent.RecordHolds | frontend/src/pages/FileUpload.tsx:605 | the record kept for the next message holds each reason with its count |
| LogRuns.IdsAreConsecutive | frontend/src/pages/FileUpload.tsx:531-535 | over any run the ids are consecutive, and start after the number of entries queued at the last reset |
| LogRuns.IdsStartAtOneIff | frontend/src/pages/FileUpload.tsx:219-227 | the ids are 1 to n if and only if no entry was queued at the last reset, or none is shown |
| LogRuns.IdsCanStartLate | frontend/src/pages/FileUpload.tsx:219-227 | a run of message, reset and message before any flush, whose only entry has id 3, or id 2 where the library runs the first update at once |
| LogRuns.LogAccounting | frontend/src/pages/FileUpload.tsx:548-587 | over any run the logged duplicate increments sum to the largest count received since the reset, and the milestones are strictly increasing multiples of 10000 |
| UploadDelivery.DeliverKeepsInv | frontend/src/pages/FileUpload.tsx:559-631 | delivering any message ever sent, late or again, keeps the delivery invariant |
| UploadDelivery.ReachableInv | frontend/src/pages/FileUpload.tsx:522-632 | the delivery invariant holds in every reachable state of server, channel and page |
| UploadDelivery.CountersReachHighestTotals | frontend/src/pages/FileUpload.tsx:575-629 | over any run the page has counted exactly up to the largest totals delivered since the reset |
| UploadDelivery.AtMostOnceAndExactlyWhenGapsFit | frontend/src/pages/FileUpload.tsx:559-631 | under loss, repetition, late arrival and resets, errors and logs appear at most once and in history order, and they are the whole history up to the largest total delivered if and only if every gap fitted the window |
| ReasonRuns.ReasonLoggedOnRise | frontend/src/pages/FileUpload.tsx:593-605 | a message logs a reason exactly when its count is higher than in the message before |
| ReasonRuns.ReasonsShowRises | frontend/src/pages/FileUpload.tsx:589-606 | over any run the counts logged for a reason are the rises of the counts received |
| ReasonRuns.SuccessesAreNotShown | frontend/src/pages/FileUpload.tsx:594 | over any run no reason whose name begins with VALID is shown |
| ReasonRuns.ReasonsIncreaseIff | frontend/src/pages/FileUpload.tsx:589-606 | these are strictly increasing if and only if every rise received is a new maximum |
| ReasonRuns.LateMessageRepeatsReason | frontend/src/pages/FileUpload.tsx:596-605 | a run of three messages with counts 5, 3 and 5 for a reason logs 5 twice |
| StageProgress.StagePercentageMonotone | frontend/src/pages/FileUpload.tsx:672-691 | the stage percentage grows with the overall percentage and stays within 0 to 100 |
| StageProgress.OverallPercentageCrossesRange | services/pkd-management/src/common/progress_manager.cpp:469-483 | the server's percentage grows with its counter, stays within the stage's range and reaches its end |
| StageProgress.OverallAtEnds | services/pkd-management/src/common/progress_manager.cpp:78-102 | the percentages the server reports at the start and at the end of every stage |
| StageProgress.OverallIsShare | services/pkd-management/src/common/progress_manager.cpp:469-483 | in between, the percentage is the exact share of the range, rounded down |
| StageProgress.ValidationBar | frontend/src/pages/FileUpload.tsx:676-681 | both mappings composed: the validation bar starts at 0, never runs backwards and shows 100 if and only if everything is processed |
| StageProgress.IdleIffUnreported | frontend/src/pages/FileUpload.tsx:660-665 | of all declared stage names the page takes for idle exactly the five of a single certificate's validation |
| UploadStages.FileUploadPage.constructor | frontend/src/pages/FileUpload.tsx:46-53 | the initial state of the page |
| UploadStages.FileUploadPage.Reset | frontend/src/pages/FileUpload.tsx:205-209 | stages and overall status are reset, processing and timers are not |
| UploadStages.FileUploadPage.HandleFileSelect | frontend/src/pages/FileUpload.tsx:186-191 | a valid file is selected and resets the stages, another one changes nothing |
| UploadStages.FileUploadPage.StartUploading | frontend/src/pages/FileUpload.tsx:230-239 | unless the button is disabled (line 1117) processing starts, and the overall status ends up idle |
| UploadStages.FileUploadPage.UploadAccepted | frontend/src/pages/FileUpload.tsx:247-252 | the upload stage is completed and nothing else changes |
| UploadStages.FileUploadPage.UploadRejected | frontend/src/pages/FileUpload.tsx:256-309 | a duplicate that may be uploaded again only ends processing; any other failure fails the stage and the upload |
| UploadStages.FileUploadPage.HandleProgressUpdate | frontend/src/pages/FileUpload.tsx:716-801 | one message moves the stages by the family of its stage name |
| UploadStages.FileUploadPage.FireTimer | frontend/src/pages/FileUpload.tsx:734-736 | a pending timer sets the parse stage it captured |
| UploadStages.FileUploadPage.SyncStateFromDB | frontend/src/pages/FileUpload.tsx:321-418 | one poll moves the stages and the status by the database record |
| UploadStages.AlwaysSettled | frontend/src/pages/FileUpload.tsx:205-311 | in every reachable state FINALIZED or FAILED implies not processing, and PROCESSING is never observed |
| StageEffects.StageEffect | frontend/src/pages/FileUpload.tsx:658-801 | what a message of each of the server's stages does to the three stages, their percentages, the status and the processing flag |
| StageEffects.UnknownStageIsIgnored | frontend/src/pages/FileUpload.tsx:725-801 | the name the server sends for an unknown stage changes nothing |
| StageEffects.PollEffect | frontend/src/pages/FileUpload.tsx:332-414 | what a poll shows for every record, with the share of processed entries rounded and never 100 |
| StageEffects.RequestEffect | frontend/src/pages/FileUpload.tsx:186-309 | what choosing a file, sending it and each reply change |
| StageEffects.ProcessingIffRunning | frontend/src/pages/FileUpload.tsx:230-311 | in every run the page is processing if and only if an upload was started with a file selected and no failure, final message or final record came since |
| StageEffects.EveryTimerFiresOnce | frontend/src/pages/FileUpload.tsx:731-736 | pending timers are the ends of parsing received less the timers fired |
| StageEffects.TimerEffect | frontend/src/pages/FileUpload.tsx:734-736 | a timer completes the parse stage and changes nothing else |
| UploadStages.TimersAlwaysComplete | frontend/src/pages/FileUpload.tsx:733-736 | every pending timer is going to set the parse stage to completed |
| UploadStages.StepKeepsOrderIff | frontend/src/pages/FileUpload.tsx:716-801 | an event keeps the order of the stages if and only if it is none of the listed ones |
| UploadStages.ForwardRunsStayOrdered | frontend/src/pages/FileUpload.tsx:716-801 | within one upload whose messages never go back to an earlier phase, a begun database stage implies completed upload and parse stages, and a begun parse stage a completed upload, wherever timers and polls fall and however late the polls are |
| UploadStages.LateParsingLags | frontend/src/pages/FileUpload.tsx:727-736 | the end of parsing, reported to a completed upload, puts its parse stage back in progress and the stages out of order |
| UploadStages.OrderReturnsIffParsingCatchesUp | frontend/src/pages/FileUpload.tsx:733-736 | from there, for all timers and polls, the stages are in order if and only if a pending timer has fired or a poll has found the record no longer pending; with completed records everything is then completed |
| UploadStages.LdifUploadEndsOutOfOrder | services/pkd-management/src/handlers/upload_handler.cpp:380-407 | the server's messages for a successful LDIF file leave a finalized upload out of order until its timer fires |
| UploadStages.LeftoverTimerBreaksOrder | frontend/src/pages/FileUpload.tsx:734-736 | after such an upload, the next one started before the timer fires gets its parse stage completed by that timer |
| UploadStages.CompletionCompletesAll | frontend/src/pages/FileUpload.tsx:778-794 | a completion message completes everything, whatever the state |
| UploadStages.CompletionUndoneIff | frontend/src/pages/FileUpload.tsx:716-801 | of all events, timers and later messages included, exactly the listed ones take a completed upload back |
| UploadStages.StaysDoneIffNothingUndone | frontend/src/pages/FileUpload.tsx:716-801 | a completed upload stays completed throughout a run if and only if none of those events happens in it |
| UploadStages.PercentagesInRange | frontend/src/pages/FileUpload.tsx:716-801 | every percentage ever shown, or held by a timer, lies between 0 and 100 when those received do |
| Hex.ToHex | shared/util/Base64Util.hpp:110-121 | the loop prints two lower-case digits for each byte |
| Hex.ReadByte | shared/util/Base64Util.hpp:135-148 | the shifting inner loop reads two digits or fails on the first character that is none |
| Hex.FromHex | shared/util/Base64Util.hpp:126-153 | the loop decodes all pairs or fails |
| Hex.DecodeAfterEncode | shared/util/Base64Util.hpp:110-153 | decoding an encoded byte sequence gives it back |
| Hex.EncodedDigits | shared/util/Base64Util.hpp:111-114 | the two digits at 2i are the value of byte i to the base 16, the higher first |
| Hex.HexDigitsAre | shared/util/Base64Util.hpp:139-147 | the 22 characters accepted as digits |
| Hex.DecodeSucceedsIffHex | shared/util/Base64Util.hpp:126-153 | decoding succeeds if and only if the text has even length and only hexadecimal digits, and encoding the result gives the text in lower case |
| Uuid.PaddedIsField | shared/util/UuidUtil.hpp:32-39 | a value that fits its width is printed as exactly its nibbles, leading zeros included |
| Uuid.FieldReadsBack | shared/util/UuidUtil.hpp:34-39 | the digits of a field read back to its value |
| Uuid.PrintFields | shared/util/UuidUtil.hpp:31-41 | the stream output is the five fields with hyphens |
| Uuid.Generate | shared/util/UuidUtil.hpp:18-42 | the result is the text of the two masked random words |
| Uuid.IsValid | shared/util/UuidUtil.hpp:47-68 | the loop accepts exactly texts of 36 characters with hyphens at 8, 13, 18 and 23 and hexadecimal digits elsewhere |
| Uuid.TextReadsBack | shared/util/UuidUtil.hpp:34-41 | the text is valid and reads back to the two words |
| Uuid.GeneratedUuid | shared/util/UuidUtil.hpp:23-41 | a generated text is valid, reads back to the masked words, and has version digit 4 and variant digit 8, 9, a or b |
| Uuid.SameUuidIff | shared/util/UuidUtil.hpp:26-41 | two runs give one text if and only if their random words agree in all but the six bits that are set |
| Uuid.OtherDigitsAreRandom | shared/util/UuidUtil.hpp:26-41 | a generated text is that of the random words themselves in every position but 14 and 19, and position 19 keeps its two low bits |
| Grouping.GroupingConserves | frontend/src/components/DuplicateCertificatesTree.tsx:65-87 | grouping by a key neither loses nor copies anything |
| Grouping.SortBySorts | frontend/src/components/DuplicateCertificatesTree.tsx:92-95 | sorting sorts, and permutes |
| Grouping.SortByIsStable | frontend/src/components/DuplicateCertificatesTree.tsx:92-95 | elements that compare equal keep their order |
| DuplicateGroups.CollectCertificates | frontend/src/components/DuplicateCertificatesTree.tsx:63-78 | the first pass: keys in order of first appearance, each with its first record's fields and all its records |
| DuplicateGroups.CollectCountries | frontend/src/components/DuplicateCertificatesTree.tsx:80-87 | the second pass: countries in order of first appearance, each with its certificates in order |
| DuplicateGroups.GroupDuplicates | frontend/src/components/DuplicateCertificatesTree.tsx:62-96 | both passes and the two sorts compute the specified groups |
| DuplicateGroups.GroupsConserve | frontend/src/components/DuplicateCertificatesTree.tsx:62-96 | flattening country, certificate and duplicates is a permutation of the input, and flattening to certificates gives one for each id |
| DuplicateGroups.CertificatePlacement | frontend/src/components/DuplicateCertificatesTree.tsx:65-87 | a certificate lists exactly the records with its id in input order, shows the data of the first of them, and lies under its country |
| DuplicateGroups.GroupTotal | frontend/src/components/DuplicateCertificatesTree.tsx:93 | the total of a country is the number of records listed under it |
| Grouping.KeysInOrder | frontend/src/components/DuplicateCertificatesTree.tsx:65-87 | certificates and countries come in order of first appearance before they are sorted |
| DuplicateGroups.SummaryIsRight | frontend/src/components/DuplicateCertificatesTree.tsx:141-143 | the displayed totals are the number of records, of distinct certificate ids and of countries |
| DuplicateGroups.GroupsAreSorted | frontend/src/components/DuplicateCertificatesTree.tsx:92-95 | countries by falling totals, certificates by subject, and ties of both in order of first appearance |
| DuplicateGroups.CountriesAreDistinct | frontend/src/components/DuplicateCertificatesTree.tsx:80-89 | no country is listed twice |
| Asn1Tree.ConversionMatches | frontend/src/components/MasterListStructure.tsx:78-99 | an index path leads to an output node if and only if it leads to an input node, and to the one that shows it: shape and order are kept |
| Asn1Tree.OutputShowsNode | frontend/src/components/MasterListStructure.tsx:82-90 | the output node at an index path has that path as its id and the texts of the input node |
| Asn1Tree.IdExtendsParent | frontend/src/components/MasterListStructure.tsx:88-97 | the id of a node is that of its parent, a hyphen and its index |
| Asn1Tree.PathTextInjective | frontend/src/components/MasterListStructure.tsx:88-97 | decimal index paths joined with hyphens are equal only if the paths are |
| Asn1Tree.IdsAreDistinct | frontend/src/components/MasterListStructure.tsx:78-99 | no two nodes of the whole forest have the same id |
| SearchRequests.SearchPage.StartSearch | frontend/src/pages/CertificateSearch.tsx:72-81 | a search aborts the one before, becomes the current one, shows loading and clears the error |
| SearchRequests.SearchPage.FinishSearch | frontend/src/pages/CertificateSearch.tsx:94-117 | each outcome changes exactly its fields, and loading ends only with the current request |
| SearchRequests.LoadingMeansNewestIsPending | frontend/src/pages/CertificateSearch.tsx:111-116 | in every run loading is true exactly while the newest request is pending, and exactly the older ones are aborted |
| SearchRequests.OnlyNewestCommitsIff | frontend/src/pages/CertificateSearch.tsx:107-110 | only newest requests change results or error if and only if every aborted request ends as canceled |
| SearchRequests.LatestWins | frontend/src/pages/CertificateSearch.tsx:72-117 | then commits come in request order, and the page shows the results of the last success, the statistics of the last success that had any, and an error only of the newest request |
| SearchRequests.NewestResultsAreShown | frontend/src/pages/CertificateSearch.tsx:97-116 | once the newest request has succeeded its own results are shown, without error or loading, and its statistics or else the older ones |
| SearchRequests.OlderStatisticsStay | frontend/src/pages/CertificateSearch.tsx:100-103 | a run in which the newest results stand beside the statistics of an older search |
| SearchRequests.LateReplyWouldWin | frontend/src/pages/CertificateSearch.tsx:97-99 | a concrete run in which an aborted request that delivers its reply replaces newer results |
| WeightedChoice.WeightedRandom | load-tests/lib/helpers.js:62-70 | the loop returns the first item whose prefix sum reaches the scaled number; the fallback takes a negative weight |
| WeightedChoice.LoopAlwaysStops | load-tests/lib/helpers.js:63-69 | with non-negative weights the scaled number never exceeds the total, so the fallback line is dead |
| WeightedChoice.EveryWeightCounts | load-tests/lib/helpers.js:63-68 | every item with a positive weight is chosen for some random number below 1 |
| WeightedChoice.StopsOnItsInterval | load-tests/lib/helpers.js:65-68 | for a positive number an item is chosen exactly on the interval of length its weight that ends at its prefix sum |
| WeightedChoice.ZeroWeightIsNotChosen | load-tests/lib/helpers.js:65-68 | an item of weight zero is chosen only when it is first and the number is zero |
| WeightedChoice.ChoiceIsUnique | load-tests/lib/helpers.js:65-68 | no number chooses two items |

## Left out

- Trust-chain validation, passive authentication, reconciliation: not part of this model.
- Rendering of components, icons, translations, dates and the wording of messages: user interface only.
- HTTP, event sources, timers, polling intervals and local storage: steps that may happen at any time; only the state their handlers update is kept.
- Reconnecting to the event stream: its attempt counter is local to each connection, so the code promises no bound.
- Event log entries: timestamp, wording and colour are not modelled; statistics, error counts and certificate metadata that are copied to the page as received are not either.
- Queued updates: an updater runs when the queue is flushed; that the library may run the first of an empty queue at once is considered in `LogRuns.IdsCanStartLate` only.
- Strings: sequences of characters, so the truncation lengths 60 and 80 count characters, not 16-bit units, and an escaped character outside the basic plane is one character.
- Names: RDNs with several attribute values are not printed, and of the hexadecimal pairs only the one the standard prescribes, for the null character; the encoding of a value under a dotted identifier is any sequence of bytes.
- DnIdSafety.AllIdsAreDistinct: the condition is on each RDN alone and exact as such (`DnIdClashes.SafeIffNeverMisread`); a tree with an unsafe RDN can still have distinct ids, when the other half of the clash is not in it.
- ReasonRuns.ReasonsIncreaseIff: reasons are read as a record whose keys occur once each, as in any JSON object the server builds.
- UploadStages.ForwardRunsStayOrdered: assumes that no timer of an earlier upload is pending, that a pending record has no certificates, and that messages do not go back to an earlier phase; the server's LDIF order goes back once, at its end, which `UploadStages.LateParsingLags` and `UploadStages.OrderReturnsIffParsingCatchesUp` cover.
- WeightedChoice.WeightedRandom: arithmetic is exact; floating-point rounding is not modelled.
- Uuid.Generate: the two random words are inputs; the quality of the generator is not modelled.
- Server counters: unbounded; a wrap-around of their 32 bits is not modelled.
- `localeCompare`: any total preorder.
- Tree ids and texts of the duplicate view, Base64 itself, the server's progress cache and its threads: not part of this model.
