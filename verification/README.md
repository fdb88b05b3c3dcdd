# Verified model of migraguard's decision core

migraguard decides which SQL migration files may run, in which order, and what a failure blocks.
This project models that core in Dafny and proves what the commands promise about it. Loops of the
original are loops here, proved against declarative definitions; what runs keep is proved by
induction over those runs.

- **Migration graph** (`Names`, `Graphs`, `Ordering`, `CycleDetection`, `Agreement`, `Dependents`,
  `EdgeBuilder`, `Depths`, `Forest`, `Squash`, `Baseline`). Walks, reachability, cycles and dependency
  orders are defined once in `Graphs`. The degree-counting sort, the three-colour search, the
  worklists, the memoised depths, the forest, the components and the keep set are proved equal to
  what those definitions say.
- **SQL normaliser** (`Lexer`, `LexerLaws`, `NormalForm`, `NormalizerLaws`, `CommentLaws`, `CommentInsertion`,
  `Checksum`, `Edits`).
  `Checksum.NormalizeSQL` is the scanner with its inner loops; it returns `Normal`, the printed form of
  the token stream. Lexing the printed form gives the stream back, so equal normal forms mean equal
  token streams. `LexerLaws` says what the tokens are by how they are written: encoders for each kind of
  literal, nested comments, and the characters that count as spacing. `Edits` carries this over to what `apply` notices.
- **Apply engine** (`Records`, `Apply`, `ApplyLaws`, `ApplyOutcomes`, `History`). A run is a state machine over the disk,
  the graph and the insert-only log, with an oracle that says whether each execution succeeds.
  `ApplyOutcomes` says what becomes of each file from its records, checksum and place alone, `ApplyLaws` is
  about one run, `History` about every sequence of applies and resolves in which the
  disk changes freely between commands.
- **Expand/contract groups** (`GroupStates`, `PhaseCommands`, `Conditions`, `Gate`). Group states derived from the latest
  record per phase, the guarded commands that append phase records, and the deployment gate.
- **Serial numbers** (`Naming`).

## Where the code and its documentation differ

The model follows the code. Each point has a lemma that says exactly when the promise holds.

- README.md:32 promises an error when a file reverts to an old checksum. The code gives an error exactly
  when the latest record is applied (ancestor revert), or failed and the file is neither tail nor leaf
  (unresolved failure). After a failure an editable file's old version is executed again; after a resolve
  the file is skipped in silence (`ApplyLaws.RevertDetectedExactlyWhen`, `ApplyLaws.RevertAfterFailureIsExecuted`,
  `ApplyLaws.RevertAfterResolveIsSkipped`).
- README.md:169 says that adding comments does not change the checksum. A comment between two touching
  tokens becomes a space and does change it; so does a line comment right after a dash, which takes the
  dash in; and at the end of a text an unterminated literal takes a comment in.
  `CommentInsertion.InsertionIsInvisibleExactlyWhen` says exactly when the promise holds, for every place
  between two tokens of every text (`CommentInsertion.CommentBetweenTouchingTokensShows`,
  `CommentInsertion.CommentAfterDashShows`).
- README.md:169 says that string literals are preserved as they are. The final `trim()` shortens an
  unterminated literal that ends in a space (`NormalizerLaws.StreamIsKept`, `NormalizerLaws.OpenLiteralsAreConfused`).
- docs/expand-contract.md:90 calls `contract_completed` terminal. The guard lets an expand be recorded again,
  which can reopen the group (`PhaseCommands.StaysCompletedExactlyWhen`, `PhaseCommands.CompletedGroupCanBeReopened`).
- docs/expand-contract.md:243 keeps the files of open groups out of a baseline. Files between such a file
  and a kept leaf are squashed all the same, unless the open files are protected (`Baseline.PlanBaseline`,
  `Baseline.OpenGroupCanBreakTheSplit`).

## Assumptions stated in contracts

- The loops for '...' and "..." literals, which differ only in the quote, are one method with the quote as parameter.
- A graph's edges join listed files (`WellFormed`), which `EdgeBuilder.BuildEdges` establishes.
- File names are distinct where a contract says `Distinct`. `Ordering.TopologicalSort` does without: on a
  repeated name it returns nothing.
- A serial that outgrows its width sorts before the largest existing one as a string
  (`Naming.FollowsExactlyIfFits`), but never becomes a migration: the file-name pattern wants exactly the
  configured width (src/naming.ts:33-36), and the scan passes over what does not match (src/scanner.ts:63-64).
- Records are strictly ordered in time: the log's clock counts inserts. `Records.TiesKeepTheEarlierRow` shows
  what the reduction does on equal times.
- `apply` is modelled for Class A files, and its DAG laws assume a graph without cycles; on a cycle the model,
  like the code, falls back to scan order.

## Model

| member | source | states |
|---|---|---|
| Ordering.TopologicalSort | src/deps.ts:886-920 | Succeeds exactly on distinct file names without a dependency cycle; the result is a permutation of the files and the lexicographically least order in which dependencies come first. |
| Ordering.CountEdges | src/deps.ts:887-898 | The degree of each file counts its edges to unsorted files, and the adjacency lists hold its dependents once per edge. |
| Ordering.Release | src/deps.ts:911-915 | After one file is sorted, degrees again count the pending edges and the ready list again holds exactly the unsorted files of degree zero, without repetition. |
| Ordering.GreedyIsLeast | src/deps.ts:905-909 | Taking the least ready file at every step gives the least of all dependency orders. |
| Ordering.LeastOrderIsUnique | src/deps.ts:905-919 | A graph has at most one least dependency order. |
| Ordering.LeastOrderIgnoresListing | src/deps.ts:886-920 | The least order depends on which files and edges there are, not on the order in which they are listed. |
| Ordering.UnsortedIsStuck | src/deps.ts:918-919 | If the ready list runs empty before all files are sorted, there is a cycle. |
| Graphs.StuckSetHasCycle | src/deps.ts:918-919 | A non-empty set in which every file depends on a file of the set contains a cycle. |
| Graphs.OrderedIsAcyclic | src/deps.ts:886-920 | A list in which dependencies come first certifies that there is no cycle. |
| CycleDetection.DetectCycles | src/deps.ts:837-880 | Every reported cycle is a closed walk along edges that meets no file twice; one is reported exactly if there is a cycle; the edges off the reported cycles form none. |
| CycleDetection.CycleFinder.Visit | src/deps.ts:854-871 | The search terminates, restores the path, and leaves every dependency of a finished file finished earlier or on a reported cycle. |
| CycleDetection.CycleFinder.Examine | src/deps.ts:859-867 | After one dependency is looked at it is finished, or the edge to it lies on a reported cycle. |
| CycleDetection.CycleFinder.VisitAll | src/deps.ts:873-877 | Every file ends up finished. |
| CycleDetection.BackEdge | src/deps.ts:861-863 | The path from the first occurrence of the neighbour, closed by it, is a genuine cycle through the back edge. |
| CycleDetection.CutIsAcyclic | src/external/insight-provider.ts:147-150 | Dropping the edges on reported cycles leaves a graph without cycles. |
| CycleDetection.CollectCycleEdgeKeys | src/external/insight-provider.ts:39-47 | The collected keys are exactly the edges on reported cycles. |
| CycleDetection.CycleEdgeReturns | src/external/insight-provider.ts:39-47 | An edge on a reported cycle leads back to its own source. |
| CycleDetection.EdgesOffCycles | src/external/insight-provider.ts:147-150 | The filter keeps exactly the edges on no reported cycle, in order. |
| CycleDetection.BuildExternalEdges | src/external/insight-provider.ts:141-182 | The exported edges never form a cycle, only edges that lead back to their source are missing, and without cycles none is. |
| Agreement.OrderExistsExactlyIfAcyclic | src/deps.ts:837-920 | A dependency order exists exactly when there is no cycle. |
| Agreement.CommandDeps | src/commands/deps.ts:21-38 | deps reports ok exactly when the files can be put in dependency order. |
| Agreement.SortAndSearchAgree | src/deps.ts:837-920 | On distinct file names the sort returns nothing exactly when the search returns a non-empty list. |
| Dependents.FindTransitiveDependents | src/deps.ts:938-959 | The result is exactly the set of files from which the given one is reached along dependencies, also on cyclic graphs. |
| Dependents.FindLeafNodes | src/deps.ts:926-932 | The leaves are exactly the files no file depends on, in the order in which the files are listed. |
| Dependents.ClosureComplete | src/deps.ts:947-958 | When the worklist is empty nothing reachable is missing. |
| EdgeBuilder.BuildEdges | src/deps.ts:752-831 | Both ends of every edge are files, no edge is a loop or listed twice, and f is linked to g exactly when a reference of f was last created by g, an explicit target of f resolves to g, or configuration lists g for f. |
| EdgeBuilder.KeysIdentifyObjects | src/deps.ts:35-49 | Two references have one key exactly when their names are equal and their kinds are equal or both among table, view, sequence and index. |
| EdgeBuilder.LastDeclaresIsUnique | src/deps.ts:764-769 | A reference links to one file at most: the last one that creates the object it means. |
| EdgeBuilder.LooksExpandedMeans | src/deps.ts:798-800 | The two tests on the name hold exactly for the group's name, a slash, anything, and the ending of an expand file. |
| EdgeBuilder.CollectCreators | src/deps.ts:764-769 | Each object is mapped to the last file that creates it. |
| EdgeBuilder.Resolve | src/deps.ts:795-806 | A target resolves to the file of that name, else to the first expand file of the group of that name, else to nothing. |
| Depths.ComputeDepths | src/commands/deps.ts:96-130 | Every file gets a depth on any graph; without cycles it is the length of its longest dependency chain. |
| Depths.DepthFinder.GetDepth | src/commands/deps.ts:105-123 | The memo only grows, the recursion ends on cyclic graphs, and without cycles the returned depth is the longest chain's length. |
| Depths.LongestChainIsUnique | src/commands/deps.ts:96-130 | A file has at most one longest-chain length. |
| Depths.OneMore | src/commands/deps.ts:116-122 | A file is one deeper than its deepest dependency. |
| Forest.BuildTree | src/commands/deps.ts:48-94 | The forest is built on any graph and shows no file twice; without cycles it shows every file exactly once, at its depth; every file hangs under its deepest dependency (ties by name, depths known for all files), roots and siblings in name order. |
| Forest.PrimaryParents | src/commands/deps.ts:57-72 | Each file with dependencies gets the deepest one as parent, the first by name among equals. |
| Forest.BuildHolds | src/commands/deps.ts:88-91 | The tree built below a file holds exactly the files whose parent chain passes through it, once each, at the chain's length. |
| Forest.EveryFileHasRootChain | src/commands/deps.ts:57-72 | Without cycles, following primary parents from a file reaches a root in as many steps as its depth. |
| Forest.RootChainIsUnique | src/commands/deps.ts:75-86 | A file has at most one chain of parents from a root. |
| Squash.FindConnectedComponents | src/commands/squash.ts:137-179 | The components cover the new files, are disjoint, and each is the set of new files connected with its first one, in the order of the sort keys. |
| Squash.ShareExactlyIfConnected | src/commands/squash.ts:137-179 | Two new files share a component exactly when an undirected path of edges between new files joins them. |
| Squash.FloodFrom | src/commands/squash.ts:161-172 | One search adds to the visited files exactly the component it returns, and leaves no unvisited neighbour. |
| Squash.ContractionIsAcyclic | src/commands/squash.ts:99-135 | If no recorded file depends on a new one, replacing each component by one file keeps the graph free of cycles. |
| Squash.ContractionHasCycleExactlyWhen | src/commands/squash.ts:99-135 | With no file depending on itself directly, replacing each component by one file closes a cycle exactly when a recorded file is on a closed walk of dependency edges and moves inside components. |
| Squash.RecordedInBetweenMakesACycle | src/commands/squash.ts:99-135 | A recorded file that one new file depends on and that depends on another of the same component, directly or through others, closes a cycle. |
| Baseline.ComputeKeepSet | src/commands/baseline.ts:176-231 | The keep set is the union, over the cutpoints that resolve, of the file each resolves to and all its transitive dependents. |
| Baseline.KeepFrom | src/commands/baseline.ts:196-206 | The worklist of one cutpoint yields its file and exactly that file's transitive dependents. |
| Baseline.ResolveCutpoint | src/commands/baseline.ts:193-194 | A cutpoint resolves to the first file it names, itself or as a group directory, and to nothing only if it names none. |
| Baseline.PlanBaseline | src/commands/baseline.ts:45-97 | Refuses on a failed backfill or at the first file neither kept nor applied; otherwise squashes exactly what is not kept, and no squashed file depends on a kept one: always with no open group, else exactly when the open groups' files are protected. |
| Baseline.ClosedSplitIsSafe | src/commands/baseline.ts:61-97 | If nothing outside the kept files depends on one, no squashed file reaches one through others either. |
| Baseline.KeepSetIsClosed | src/commands/baseline.ts:176-231 | Nothing outside the keep set depends on a file in it. |
| Baseline.OpenGroupCanBreakTheSplit | src/commands/baseline.ts:68-72 | A leaf and an open group's file are kept while the file between them, on which the leaf depends and which depends on the group's file, is not kept; the split is then not safe. |
| Checksum.NormalizeSQL | src/checksum.ts:16-136 | The scanner's output is the normal form: the token stream printed with single spaces, trimmed. |
| Checksum.NextItem | src/checksum.ts:22-133 | One round of the main loop consumes exactly the next lexical item and pushes its text, or one space for a gap that follows no gap. |
| Checksum.SkipBlock | src/checksum.ts:34-45 | The comment loop stops where the nested comment ends, or at the end of the text. |
| Checksum.CopyEscape | src/checksum.ts:53-65 | The escape-string loop copies through the closing quote, backslashes escaping the next character. |
| Checksum.CopyQuoted | src/checksum.ts:73-82 | The quoted-literal loop copies through the closing quote, doubled quotes not closing it. |
| Checksum.DollarQuoted | src/checksum.ts:104-121 | A dollar-quoted literal is copied through the next occurrence of its tag, or to the end. |
| Checksum.TrimmedOutput | src/checksum.ts:135-135 | Trimming what the loop pushed gives the printed token stream. |
| Lexer.LexIsLossless | src/checksum.ts:22-133 | The lexical items, put together, are the text. |
| LexerLaws.EscapeLiteralIsOneToken | src/checksum.ts:50-67 | After E' or e', any sequence of plain characters and of backslashes each with one character, and then a quote, is one closed literal, whatever follows. |
| LexerLaws.EscapeClosesExactlyWhen | src/checksum.ts:50-67 | A literal opened with E' is closed exactly when such a sequence and a quote follow. |
| LexerLaws.EscapedValueIsOneToken | src/checksum.ts:50-67 | Any value with a backslash before each quote and backslash is one closed literal, whatever follows. |
| LexerLaws.EscapedValueSurvives | src/checksum.ts:50-67 | Where such a literal stands between tokens, the normal form has it character by character. |
| LexerLaws.LiteralSurvives | src/checksum.ts:50-122 | Any closed literal that stands between tokens is in the normal form character by character. |
| LexerLaws.QuotedValueIsOneToken | src/checksum.ts:70-102 | Any value with its quotes doubled, between two quotes, is one closed literal if no quote follows. |
| LexerLaws.ClosedQuoteIsAValue | src/checksum.ts:70-102 | Every closed quoted literal is a value with its quotes doubled. |
| LexerLaws.TaggedBodyIsOneToken | src/checksum.ts:104-122 | Whatever stands between two equal dollar tags, the tag not in it, is one closed literal. |
| LexerLaws.DollarOpensExactlyWhen | src/checksum.ts:104-122 | A dollar opens a literal exactly when letters, digits or underscores, or none, and a second dollar follow. |
| LexerLaws.LineCommentIsOneGap | src/checksum.ts:26-32 | A line comment reaches through its newline, or to the end of the text. |
| LexerLaws.BlockCommentIsOneGap | src/checksum.ts:34-48 | A comment with comments nested in it to any depth is one gap, whatever follows. |
| LexerLaws.OpenCommentIsOneGap | src/checksum.ts:34-48 | A comment that is never closed reaches to the end of the text. |
| LexerLaws.SpacingIsOneGap | src/checksum.ts:124-128 | A character is a gap by itself exactly when its code point is in the list of spacing characters. |
| LexerLaws.CodeExactlyWhen | src/checksum.ts:130-132 | Any other character is copied as it is exactly when it opens no comment and no literal. |
| LexerLaws.WordsAreJoined | src/checksum.ts:16-136 | Words with any spacing and comments before, between and after them have as normal form the words with one space between each two. |
| NormalizerLaws.LexOfNormal | src/checksum.ts:16-136 | Lexing the normal form gives back exactly the trimmed token stream of the text: same tokens, literals and separators. |
| NormalizerLaws.StreamOfNormal | src/checksum.ts:16-136 | The token stream of the normal form is the trimmed token stream of the text. |
| NormalizerLaws.NormalIsIdempotent | src/checksum.ts:16-136 | Normalising twice changes nothing, for every text, terminated or not. |
| NormalizerLaws.NormalFormsCompareStreams | src/checksum.ts:138-140 | Two texts have the same normal form exactly when they have the same trimmed token stream. |
| NormalizerLaws.StreamIsKept | src/checksum.ts:135-135 | The token stream is kept exactly unless the text ends inside a literal with a space. |
| NormalizerLaws.NormalFormsDecideStreams | src/checksum.ts:138-140 | On texts that do not end so, equal normal forms mean equal token streams, and the other way round. |
| NormalizerLaws.OpenLiteralsAreConfused | src/checksum.ts:70-84 | Two unterminated literals that differ in a final space have one normal form. |
| CommentLaws.InsertFiller | src/checksum.ts:26-48 | Any spacing, closed block comments and newline-ended line comments may be inserted after a gap between tokens without changing the normal form. |
| CommentLaws.LeadingFiller | src/checksum.ts:20-48 | The same at the start of the text. |
| CommentLaws.BlockCommentIsComplete | src/checksum.ts:34-48 | Block comments nested to any depth are such fillers. |
| CommentLaws.LineCommentIsComplete | src/checksum.ts:26-32 | So are line comments with their newline. |
| CommentInsertion.InsertionIsInvisibleExactlyWhen | src/checksum.ts:26-135 | A comment or space put at any token boundary of any text leaves the normal form alone exactly when, after complete items, one side is empty or already separated by a gap and no dash joins a line comment; or, after an unterminated literal, it is a space; or, after an unterminated comment, what follows is still only comments and spaces. |
| CommentInsertion.ItemsBefore | src/checksum.ts:22-133 | The items before a token boundary stay as they are when a comment or space is put there, except that a dash joins a line comment and an unterminated last item is lexed together with it. |
| CommentInsertion.CommentBetweenTouchingTokensShows | src/checksum.ts:26-48 | Any comment between two touching letters changes the normal form. |
| CommentInsertion.CommentAfterDashShows | src/checksum.ts:26-32 | Any line comment right after a dash changes the normal form, also where a space follows. |
| CommentLaws.LexBeforeGap | src/checksum.ts:22-133 | What precedes a complete gap at a token boundary is lexed the same whatever follows the gap. |
| Edits.CosmeticEditsNeedNoApply | src/commands/apply.ts:191-312 | After a run without errors, editing only comments and spacing, in any files, leaves apply nothing to execute or record, even if declared dependencies change. |
| Edits.TamperingIsRejectedExactlyWhen | src/commands/apply.ts:309-347 | An applied file that is neither tail nor leaf is rejected exactly when its token stream changed (given no hash collision), and skipped otherwise. |
| Records.LatestIsFirstGreatest | src/commands/apply.ts:31-36 | The reduction returns the first listed of the records with the greatest time. |
| Records.LatestOfFile | src/commands/apply.ts:31-36 | On a chronological log it returns the file's last record. |
| Records.TiesKeepTheEarlierRow | src/commands/apply.ts:33-35 | Of two records with one time the earlier row wins. |
| Records.LatestOfPhase | src/group-state.ts:31-40 | On a chronological log the latest record of a phase of a group is the last one in the log. |
| Records.Db.InsertRecord | src/db.ts:53-61 | The log grows by exactly the given record, later than all others. |
| Apply.CommandApply | src/commands/apply.ts:96-219 | The files are taken in dependency or scan order; log and result end as the step-by-step run over them says, and a break leaves the rest untouched. |
| Apply.ProcessFile | src/commands/apply.ts:247-349 | Each branch records and reports what the decision for the file says, and returns an error exactly on a rejection or a failed execution. |
| Apply.ApplyOne | src/commands/apply.ts:149-219 | One round of the loop: blocked files are only reported; an error blocks the transitive dependents in DAG mode and stops the run in linear mode. |
| Apply.GroupRecords | src/commands/apply.ts:103-109 | Each file's list holds exactly its records, in log order. |
| Apply.EditableFiles | src/commands/apply.ts:194-196 | The editable files are the leaves in DAG mode, and only the tail in linear mode. |
| Apply.StoppedStays | src/commands/apply.ts:211-218 | After the break nothing changes any more. |
| ApplyOutcomes.DecisionMeans | src/commands/apply.ts:259-348 | The branches execute, skip or reject a file exactly as its last record, the checksums seen before, its current checksum and its place as tail or leaf say, with the error kind of each case. |
| ApplyOutcomes.TurnOfFile | src/commands/apply.ts:149-218 | What a file's turn adds to the log, to each array of the result and to the blocked files, in every case. |
| ApplyOutcomes.FirstRunAppliesAll | src/commands/apply.ts:259-265 | On an empty log, when no execution fails, every file is executed in order, with one applied record each and nothing skipped, blocked or in error. |
| ApplyOutcomes.DueFileIsRecordedOnce | src/commands/apply.ts:259-348 | A file that is due when its turn comes (new, or editable and failed or with a content never seen) gets exactly one record in the run, applied or failed as the execution goes, and that is its last one. |
| ApplyOutcomes.OthersGetNoRecord | src/commands/apply.ts:276-348 | A file that is not due gets no record in the run. |
| ApplyOutcomes.ResolvedFileIsSkipped | src/commands/apply.ts:276-280 | A resolved file gets no record on any disk, and is reported as skipped when its turn comes. |
| ApplyOutcomes.FailedIsFirstError | src/commands/apply.ts:268-268 | The file named as failed is the first one in error, and none is named without an error. |
| ApplyLaws.RunExtendsLog | src/commands/apply.ts:259-349 | Every run only extends the log, chronologically. |
| ApplyLaws.ExecutedAfterDependencies | src/commands/apply.ts:149-219 | DAG mode: whenever a file is executed, every transitive dependency of it is applied with its current checksum or skipped. |
| ApplyLaws.BlastRadiusIsExact | src/commands/apply.ts:211-218 | DAG mode: the blocked files are exactly those that reach a file in error; files in error are not blocked; all others end up to date. |
| ApplyLaws.DagReportsEveryFileOnce | src/commands/apply.ts:149-219 | DAG mode: applied, skipped, blocked and in-error files together are all files, once each. |
| ApplyLaws.LinearExecutedInOrder | src/commands/apply.ts:149-219 | Linear mode: whenever a file is executed, every earlier file is applied with its current checksum or skipped. |
| ApplyLaws.LinearStopsAtFirstError | src/commands/apply.ts:211-218 | Linear mode: there is one error at most; the files up to it are reported once each and no later file gets a record. |
| ApplyLaws.UnresolvedFailureBlocks | src/commands/apply.ts:282-307 | While a file's latest attempt failed and it is neither tail nor leaf, no run executes a file that waits for it. |
| ApplyLaws.RevertDetectedExactlyWhen | src/commands/apply.ts:276-323 | A file set back to an old version gives an error exactly when its latest record is applied (ancestor revert), or failed and the file not editable (unresolved); it is executed exactly after a failure of an editable file, and skipped exactly after a resolve. |
| ApplyLaws.RevertAfterFailureIsExecuted | src/commands/apply.ts:282-297 | Applied v1, failed v2, file back at v1 and editable: it is executed again. |
| ApplyLaws.RevertAfterResolveIsSkipped | src/commands/apply.ts:276-280 | Applied v1, failed and resolved v2, file back at v1: it is skipped without an error. |
| ApplyLaws.ErrorFreeRun | src/commands/apply.ts:149-219 | A run without errors leaves every file up to date, in both modes, with cycles or without. |
| ApplyLaws.ApplyConverges | src/commands/apply.ts:149-219 | After a run without errors a second run skips every file and leaves the log as it is, even if files went away, dependencies changed or the mode was switched. |
| History.CommandResolve | src/commands/resolve.ts:10-44 | Exactly when the file's last record failed, adds a skipped record with its checksum, which is then the last one; otherwise the log stays as it is. |
| History.ResolveMeansSkip | src/commands/resolve.ts:38-38 | After a resolve, a run of apply on any disk skips the file when its turn comes and adds no record for it. |
| History.EveryHistoryIsLawful | src/commands/apply.ts:247-349 | Over every sequence of applies and resolves: a skipped record directly follows a failed one of its file with the same checksum, nothing follows a skipped one, and a record after an applied one has a checksum never seen for the file. |
| History.RepeatsOnlyWhileEditable | src/commands/apply.ts:191-219 | At any point of any history an apply records each file at most once, and a file with earlier records only while it is the tail or a leaf. |
| GroupStates.LastOfPhaseIsAt | src/group-state.ts:31-40 | The last record of a phase stands at a position after which the phase is not recorded; there is none only if it never is. |
| GroupStates.DerivedIsLast | src/group-state.ts:50-71 | The derived record of each phase is the last one in the log. |
| GroupStates.CompletedMeans | src/group-state.ts:73-84 | A group is completed exactly when its last expand and last contract are applied. |
| GroupStates.OpenMeans | src/group-state.ts:115-117 | A group is open exactly when its last expand is applied and its last contract is not. |
| PhaseCommands.CommandAdvance | src/commands/advance.ts:29-76 | Exactly when the guard allows, appends a record of the phase with the reported status (running, applied for completed, failed), no checksum, and the file name of the phase's first record or else the conventional one; returns the derived states before and after; an expand not completed leaves the group not applied. |
| PhaseCommands.CommandApplyPhase | src/commands/apply-phase.ts:25-92 | Exactly when the guard allows and the phase's own file exists, appends a record of that file with its checksum, applied if the execution succeeds and failed otherwise; a failed expand leaves the group not applied. |
| PhaseCommands.AllowedMeans | src/group-state.ts:132-150 | The guard allows expand always, and a later phase exactly when the group's last expand is applied and what was begun of the phases in between is applied. |
| PhaseCommands.FindsAdvanceFile | src/commands/advance.ts:78-84 | The file name is that of the phase's first record in the log, or else the conventional one. |
| PhaseCommands.EveryRunKeepsPhaseOrder | src/group-state.ts:132-150 | Over every interleaved run from an empty log, a later phase is recorded only while the group's last expand is applied, switch and contract only while its last backfill, if any, is, and contract only while its last switch, if any, is. |
| PhaseCommands.StaysCompletedExactlyWhen | src/group-state.ts:73-84 | A completed group stays completed exactly when the added record is not an unsuccessful expand or contract of that group. |
| PhaseCommands.CompletedGroupCanBeReopened | src/commands/advance.ts:41-65 | Reporting expand as failed is accepted for a completed group and makes it not applied. |
| Gate.CommandGate | src/commands/gate.ts:51-78 | Passes exactly when all required conditions hold and no forbidden one does, a condition holding by how it is written, the first group it names, and the last records of that group's phases; the reasons are exactly the offending conditions. |
| Gate.EvaluateMeans | src/commands/gate.ts:83-98 | A condition is found true exactly when it is written as one, its name finds a group, and that group has reached the state by the last records of its phases. |
| Gate.NamedConditionHolds | src/commands/gate.ts:83-98 | A condition whose name finds a group holds exactly when that group has reached the state. |
| Gate.ReachedMeans | src/commands/gate.ts:105-123 | contract_completed is reached exactly with the last expand and contract applied; expand_applied exactly with the last expand applied and no failed backfill that neither switch nor contract has passed. |
| Conditions.ParseMeans | src/commands/gate.ts:84-88 | A text is a condition on a name and a state exactly when it is group:, the name without a dot, a dot, and the state on one line. |
| Conditions.ShortNameMeans | src/commands/gate.ts:100-103 | The short name is what follows the first two underscores that leave a line, or the whole name if there are none. |
| Conditions.FindMeans | src/commands/gate.ts:90-93 | The state found is that of the first group called by the name or the short name. |
| Conditions.ComputedMeets | src/commands/gate.ts:105-123 | Which targets the derived state meets, case by case, by the latest records of the four phases. |
| Conditions.LowerStateDoesNotMatch | src/commands/gate.ts:122-122 | A state lower in the order than the one asked for does not meet the condition. |
| Gate.DeriveAllGroupStates | src/group-state.ts:102-113 | Exactly one derived state for each non-empty group of the log, no group twice, in the order in which the groups first appear. |
| Gate.NamesAreTheGroups | src/group-state.ts:103-106 | The group names are exactly the non-empty groups of the log, each once. |
| Gate.NamesInOrder | src/group-state.ts:103-106 | Of two names the one listed first was recorded when the other was not yet. |
| Gate.RankNeverFalls | src/group-state.ts:73-100 | Along a log in which every phase record makes progress, no group's rank in the state order ever falls. |
| Gate.FoundLater | src/commands/gate.ts:90-93 | A full or short name that finds a group finds the same one later, at no lower rank, also when new groups appear. |
| Gate.RequireStaysSatisfied | src/commands/gate.ts:83-123 | Along such a log a satisfied required condition stays satisfied. |
| Naming.NextSerialNumber | src/naming.ts:123-136 | The next serial parses back to the greatest existing number plus one; it has the fixed width, so that the file-name pattern accepts it, and sorts after every existing serial, exactly while that number is below ten to the width. |
| Naming.FollowsExactlyIfFits | src/naming.ts:135-163 | The same for any list of serials and its greatest number. |
| Naming.OrderIsNumeric | src/naming.ts:161-163 | On digit strings of one length the string order is the numeric order. |
| Names.LessMeans | src/deps.ts:906-906 | The sort order of names puts a proper prefix first and otherwise goes by the first differing character. |
| Naming.DecimalValue | src/naming.ts:130-136 | Writing a number in decimal and parsing it gives the number back. |

## Left out

- Extraction of creates, references and explicit targets from SQL (src/deps.ts:89-710, src/generic/deps.ts, src/sql-ast.ts): foreign parse trees; each file's declarations are inputs of `EdgeBuilder.BuildEdges`.
- The `via` label of an edge, anchor mappings and the other fields of the exported insight: labels without effect on which edges there are.
- Edge keys and object keys are pairs here; in the code they are concatenated strings, which a name containing `->` could confuse.
- Database adapters, psql, mysql and sqlite3 execution, schema dumps and shadow-database verification: foreign calls; an execution is an oracle, asked at the position of its record in the log.
- SHA-256: any function of the normal form; only `Edits.TamperingIsRejectedExactlyWhen` needs two given texts not to collide.
- Advisory locks as real concurrency: each command is one atomic step.
- Expand/contract files, open-group blocking, `--from-baseline`, `--dry-run` and the drift check inside apply: these paths go around the laws proved for Class A files.
- Deletion of squashed files, the history comment and the rewriting of depends-on comments in baseline, and the order of its kept list.
- The text and metadata of squashed files.
- Squash.FindConnectedComponents: sort keys are compared by code point; the code compares by locale, which agrees on serials and timestamps of one format.
- check, status, editable, schema normalisation and metadata helpers: simple filters over the same data.
- Lint rules, agents, generated code, the command line, HTML and coloured output.
- The regular expression built from a naming pattern, and timestamps that are not serials; a serial here has exactly the configured width.
- Reading a gate contract from a file, and the texts of messages.
- The order of the edge list: `EdgeBuilder.BuildEdges` says which edges there are, and no result proved here depends on their order.
- The tag and resolved-at columns of a record, which nothing reads back.
- Naming.NextSerialNumber: numbers are unbounded here, while the code's lose precision from 2^53 on.
- Ordering.TopologicalSort: names are compared by code point; the code compares UTF-16 units, which differ only on names with characters above U+FFFF.
