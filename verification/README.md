# Verified model of loc-lm-bench's contracts, runners and resource arithmetic

This project models the parts of loc-lm-bench that decide what an evaluation run is worth after
something went wrong, and proves what they keep. It covers six areas.

- **Artifact contracts** (`Versioning`, `Contracts`, `Migrations`, `Registry`, `RegistryValidation`,
  `Bundles`, `BundleUpgrade`, `BundleDigests`, `UpgradeLimits`). A registry holds families of versioned record models and the migration
  steps between versions. The model enumerates migration paths by the same recursive walk, reads a
  record along its one path with validation after each step, checks a registry statically, and
  upgrades the files of a bundle in place.
- **Durable evaluation** (`Cases`, `Retry`, `JournalText`, `CaseJournals`, `DurableRun`). A case runs
  with bounded retries and backend relaunches and is journaled as one JSON line. A kill leaves any
  start of the journal file, in characters; the next session loads what is readable and goes on.
- **Auto-RAG stages** (`AutoRag`). Eight ordered stages, one atomic result each, with pauses,
  failures, and kills before any durable write.
- **Isolated sweeps** (`Isolation`, `Sweeps`). Each cell runs under a memory gate with bounded
  polling; completion markers let a later sweep skip finished cells.
- **Multi-hop loop and backend choice** (`Controller`, `MultiHop`, `RuntimeFloor`, `Resolver`).
- **Arithmetic** (`Ranks`, `VramGuard`, `ContextWindow`, `Intervals`): tied average ranks, the
  launch guard's derated share, two window checks that must agree, and the Wilson interval.

`Text` holds the string operations the others share. Code that updates state is a class or a method
with loops, proved equal to a specification function; the lemmas then prove what that function keeps
over all inputs and over any sequence of runs.

## Assumptions

What the code takes from a library or from outside is a parameter, with these promises where a lemma
asks for them.

- JSON (`Bundles.IsJson`, `JournalText.IsJournalJson`): written text reads back; one-line text starts
  with a brace and escapes control characters; and no readable text is cut short inside an object.
  `PlainJson` defines a JSON writer and the reader of what it writes, and proves that they keep these
  promises, so what rests on them is about codecs that exist.
- Record models (`Contracts.Model`): acceptance is an abstract predicate, strict on the two identity
  constants, and a current object dumps faithfully (`Bundles.DumpsFaithfully`). Transforms are
  arbitrary functions. Content hashes are injective.
- Runners, models, retrievers, probes, the planner and device readings are arbitrary functions of
  their arguments and of the position of the call, so a lemma about them holds for any behaviour.
- Memory shares, waits and interval ends are exact reals; a square root is a number whose square is
  the radicand.

## Where the code is narrower than its documentation

The table's lemmas state exactly when each of these happens, or show it on an input.

- The static registry check passes over a refusal of the family's current version. Old records of such
  a family read, while the current record they migrate to does not (`CurrentVersionCanBeRefused`).
- Reading an intermediate record gives the same object only if the record carries its identity, which
  a model whose identity fields have defaults does not enforce (`ReadingCommutes`,
  `IdentityCanBeDropped`).
- A bundle upgrade leaves an empty row file bound at the legacy version, and a record whose text holds
  U+0085, U+2028 or U+2029 is written as a row that the reader cannot parse (`RewrittenComesBack`,
  `EmptyFileStaysLegacy`, `NoteComesBackIfUnbroken`).
- A journal row that was torn just before its newline is loaded by the next session, and is lost to
  later ones once another row is glued to it; the case is run again (`LoadAfterAppend`).
- Work that raises skips a cell's memory gate, so the sweep goes on unchecked (`NextCellStarts`,
  `FailedWorkHidesALeak`).
- The controller never looks for its stop marker. A reply, with that marker or without it, stops
  exactly if its upper case holds no continue marker or nothing visible is left behind the place of
  the first (`ReplyStopsIff`). So a stop marker before the continue marker changes nothing
  (`BothMarkersContinue`), and one after it turns a stop into one more hop, which asks for the stop
  word (`StopMarkerIsAsked`).
- Characters that upper-case to two shift the cut behind the continue marker. A query with only
  whitespace after it is read back exactly if they are no more than the padding after the marker;
  with later lines, also if the cut falls behind the query and a later line names it again
  (`QueryIsReadIff`, `ExpandingPrefixLosesTheQuery`).
- A manifest pin without a number hides the artifact's own floor (`MergeIsExact`). A version that
  lacks only zeros of its floor, such as 0.30 of 0.30.0, counts as below it, and that is the one case
  where the order is not the numeric one (`BelowIsNumericIff`, `ShorterVersionIsBelow`).
- The guard can wait until its target is free and still not launch with the requested share
  (`WaitIsEnoughIff`, `WaitLaunchesIff`) but derate (`WaitDeratesIff`), and a wait without a poll
  interval need not end (`PollEndsIff`).
- A window with no room beyond the headroom makes the agent budget zero, which means unbounded
  (`RefinesIffRoom`, `ProbeNarrowsBudgetIff`).

## Model

| member | source | states |
|---|---|---|
| `Versioning.SpelledIsParsed` | src/llb/artifacts/versioning.py:6-20 | every text of three dotted numerals without leading zeros is accepted, with those numbers |
| `Versioning.ParsedIsSpelled` | src/llb/artifacts/versioning.py:15-20 | nothing else is accepted |
| `Versioning.ParseOfPrint` | src/llb/artifacts/versioning.py:15-23 | every version parses back from its text |
| `Versioning.PrintOfParse` | src/llb/artifacts/versioning.py:15-23 | every accepted text prints back to itself |
| `Versioning.TextEqualityIsVersionEquality` | src/llb/artifacts/versioning.py:9-23 | a table keyed by version text is a table keyed by version |
| `Versioning.OrderOnTexts` | src/llb/artifacts/versioning.py:9-13 | the derived order is strict, total and transitive on accepted texts |
| `Versioning.OrderIsLexicographic` | src/llb/artifacts/versioning.py:9-13 | the first of major, minor and patch that differs decides the order |
| `Contracts.NewRegistry` | src/llb/artifacts/registry.py:39-42 | a registry is built exactly when no schema id repeats, and files each definition under its id |
| `Migrations.PathsAreTheSimplePaths` | src/llb/artifacts/registry.py:203-225 | the enumeration returns a path exactly when it is a chain of declared steps to the current version that repeats no version |
| `Migrations.PathsAreDistinct` | src/llb/artifacts/registry.py:212-225 | no path is returned twice, paths compared by step position |
| `Migrations.PathWalk.Walk` | src/llb/artifacts/registry.py:214-222 | the recursive walk appends to the shared list exactly the paths of the specification, and ends as unseen versions shrink |
| `Migrations.GroupBySource` | src/llb/artifacts/registry.py:209-211 | the table by source holds, for every version, its outgoing steps in declared order |
| `Migrations.EnumeratePaths` | src/llb/artifacts/registry.py:203-225 | the imperative enumeration gives exactly the simple paths, once each |
| `Registry.ReadCurrentByLoop` | src/llb/artifacts/registry.py:137-145 | the loop over the path's steps computes the read, with the first refused step as its error |
| `Registry.ReadAsBinds` | src/llb/artifacts/registry.py:99-135 | a record of a known family reads only under its own id and at the bound version, one without an id as if it stated both, at the bound or else the legacy version, and errors name which of these fails |
| `Registry.SupportedIff` | src/llb/artifacts/registry.py:68-76 | a version without a model is from the future exactly if its major number is larger than the current one's, and otherwise unsupported, like a text that is no version; one with a model is refused exactly if a refusal names it |
| `Registry.DispatchIff` | src/llb/artifacts/registry.py:78-97 | an old record resolves exactly if one simple path leads to the current version, to the versions on it; it fails as without a path exactly if there is none and as ambiguous exactly if there are two |
| `Registry.WhatReadsWasAccepted` | src/llb/artifacts/registry.py:137-173 | what reads states the identity that its version's model pins and was accepted by it, and the current model accepted and built what it migrated to |
| `Registry.PathIsDeclared` | src/llb/artifacts/registry.py:137-145 | every path that a read can follow is a simple path of declared steps |
| `Registry.MigrateSplit` | src/llb/artifacts/registry.py:140-143 | migrating along a path is migrating along its start and then along the rest, with the same failures |
| `Registry.MigratedIsValid` | src/llb/artifacts/registry.py:141-143 | a record migrated along declared steps validates under the version it reached |
| `RegistryValidation.VersionAndModelErrors` | src/llb/artifacts/registry_validation.py:23-47 | reports nothing exactly when versions parse, models exist and pin matching identity constants |
| `RegistryValidation.DeclarationErrors` | src/llb/artifacts/registry_validation.py:58-77 | reports nothing exactly when refusals are unique with models and edges are unique, modelled and described |
| `RegistryValidation.OldVersionErrors` | src/llb/artifacts/registry_validation.py:80-92 | reports nothing exactly when every old version has one path or a refusal, and not both |
| `RegistryValidation.ValidateRegistry` | src/llb/artifacts/registry_validation.py:8-20 | the check accepts exactly the valid registries |
| `RegistryValidation.OnePath` | src/llb/artifacts/registry_validation.py:80-92 | in an accepted family each version that is not refused has exactly one path, and it is simple |
| `RegistryValidation.ResolveFailsOnlyOnTheRecord` | src/llb/artifacts/registry.py:56-97 | over an accepted registry dispatch never meets a missing path, an ambiguous one or a missing model |
| `RegistryValidation.ReadFailsOnlyOnTheRecord` | src/llb/artifacts/registry.py:137-145 | nor does reading; past dispatch only a transform's output can be refused |
| `RegistryValidation.ReadHasOnePath` | src/llb/artifacts/registry.py:78-97 | whatever resolves has a model, no refusal and exactly one path |
| `RegistryValidation.PathOfIntermediate` | src/llb/artifacts/registry.py:203-225 | a version on an accepted path has the rest of the path as its only path and, unless it is the current one, no refusal |
| `RegistryValidation.ReadingCommutes` | src/llb/artifacts/registry.py:137-145 | reading the record after any number of steps gives the same result exactly when that record carries its identity and, at the end, the current version is not refused |
| `RegistryValidation.CurrentVersionCanBeRefused` | src/llb/artifacts/registry_validation.py:80-92 | for any two versions there is an accepted registry where the old record reads and the current one is refused |
| `RegistryValidation.IdentityCanBeDropped` | src/llb/artifacts/registry.py:137-156 | for any two versions there is an accepted registry where the old record reads, its intermediate record validates without identity, and that record is refused |
| `Bundles.ReadBoundMemberByLoop` | src/llb/artifacts/io.py:32-70 | the loop over a member's records computes the read: presence, digest, framing, then one contract read per record |
| `Bundles.OneRecordFails` | src/llb/artifacts/io.py:54-70 | of a record that does not read, a missing model and a failed construction crash the reader, and any other error refuses the member |
| `Bundles.AcceptedRecordsNeverCrash` | src/llb/artifacts/io.py:54-70 | over an accepted registry no record crashes the reader |
| `Bundles.BlankLinesAreSkipped` | src/llb/artifacts/io.py:78-84 | a blank line between rows changes nothing |
| `Bundles.BoundAsStated` | src/llb/artifacts/bundles.py:170-195 | a member is bound at the version with a model that its first row or its document states under an id, and otherwise at the legacy version |
| `Bundles.ReadingReports` | src/llb/artifacts/bundles.py:257-266 | the survey of a member states its own and its family's version, the records it reads and whether it refuses; it needs an upgrade exactly if it reads at another version than the current one |
| `BundleDigests.ReadsOnlyItsText` | src/llb/artifacts/io.py:38-53 | a required member without a file refuses and an optional one reads as nothing; a digest mismatch refuses; an opaque member reads as nothing |
| `BundleDigests.DescribedReadsIntact` | src/llb/artifacts/io.py:43-47 | a described member reads only as long as its file holds the text that it was described with, and otherwise refuses |
| `BundleDigests.ChangedFilesAreLeft` | src/llb/artifacts/bundles.py:226-243 | an upgrade leaves every file that changed since its description byte-identical, whether it completes or not, and returns only ids of members whose file did not |
| `Bundles.Store.UpgradeBundle` | src/llb/artifacts/bundles.py:226-254 | the loop over members leaves the files and returns the ids that the turns specify, and stops at a crash |
| `Bundles.UpgradeStops` | src/llb/artifacts/bundles.py:235-243 | a crash in one member's turn ends the upgrade with what was written before it |
| `PlainJson.BundleCodecIsJson` | src/llb/artifacts/bundles.py:246-254 | a JSON writer and the reader of what it writes keep the promises that reading and rewriting a bundle rely on |
| `PlainJson.DumpsIsOneLine` | src/llb/artifacts/io.py:78-84 | the text of a record is one line to the row reader exactly when none of its strings and keys holds U+0085, U+2028 or U+2029 |
| `BundleUpgrade.RewrittenRowsLoadBack` | src/llb/artifacts/io.py:78-84 | written rows load back exactly when no dumped record holds a line break; otherwise the reader crashes |
| `BundleUpgrade.UpgradeTextIs` | src/llb/artifacts/bundles.py:210-254 | a member is rewritten exactly when it reads and is bound at an older version, from current objects |
| `BundleUpgrade.EmptyStaysLegacy` | src/llb/artifacts/bundles.py:170-195 | a row file without rows stays bound at the legacy version, which is not current, after its rewrite |
| `UpgradeLimits.EmptyFileStaysLegacy` | src/llb/artifacts/bundles.py:170-254 | in an accepted registry with a legacy version, the empty row file reads as no record, is rewritten as it is, and stays at the legacy version |
| `BundleUpgrade.RewrittenComesBack` | src/llb/artifacts/bundles.py:226-266 | a rewritten member comes back with the same records at the current version exactly when it had a record, its rows hold no unescaped break and the current version is not refused |
| `UpgradeLimits.NoteComesBackIfUnbroken` | src/llb/artifacts/bundles.py:226-254 | a bundle whose one old row is rewritten with a note reads the same afterwards exactly if the note holds none of those characters, and otherwise no longer reads |
| `BundleUpgrade.UpgradeEffect` | src/llb/artifacts/bundles.py:235-243 | an upgrade that completes overlays just the rewritten texts, each computed from the member's original text |
| `BundleUpgrade.UpgradeCompletesIff` | src/llb/artifacts/bundles.py:226-254 | an upgrade of described members completes exactly when none of them, as it was before, crashes its reader; refused members do not stop it |
| `BundleUpgrade.CrashesOnlyOnText` | src/llb/artifacts/io.py:48-70 | over an accepted registry only a text that does not parse crashes the reader of its member |
| `BundleUpgrade.UpgradePreserves` | src/llb/artifacts/bundles.py:226-266 | after an upgrade and a fresh description every member that read reads the same and is current, all other files are byte-identical, and a second upgrade rewrites nothing |
| `Retry.BackoffGrowsToTheCap` | src/llb/executor/durability.py:53-55 | waits within a round never shrink and never exceed the cap |
| `Retry.DelayDoubles` | src/llb/executor/durability.py:53-55 | the uncapped wait before retry k of a round is the base times two to the k |
| `Retry.CaseTakesItsCalls` | src/llb/executor/durability.py:58-91 | with r retries and b relaunches allowed, a case takes all (r+1)(b+1) calls if each reports "timeout" or "backend_error", and otherwise ends at the first that does not, with that state |
| `Retry.TalliesByNumbers` | src/llb/executor/durability.py:68-91 | n calls add (n-1)/(r+1) relaunches, the other n-1 as retries, and before each retry the wait of its place in its round |
| `Retry.JournalKeepsFailures` | src/llb/executor/durability_journal.py:130-140 | a journaled case is as much a transport failure as when it ended |
| `Retry.CaseCallsAreNeeded` | src/llb/executor/durability.py:68-91 | no call follows a real outcome, and a transport failure is returned only when the whole budget is spent |
| `Retry.AccountingIsExact` | src/llb/executor/durability.py:68-91 | a case calls the runner once plus its retries plus its relaunches, and waits once per retry |
| `Retry.CallsByRounds` | src/llb/executor/durability.py:68-91 | the calls of a case are its full rounds and the attempts of the last, which the two tallies count |
| `Retry.TimesIsProduct` | src/llb/executor/durability.py:70-80 | the call budget is the number of rounds times the calls of a round |
| `Retry.Endpoint.RunCaseWithRetry` | src/llb/executor/durability.py:58-91 | the nested loops return the specified state and leave exactly the specified tallies and waits |
| `PlainJson.JournalCodecIsJson` | src/llb/executor/durability_journal.py:139-146 | the same writer and reader keep the promises that the journal relies on |
| `JournalText.GluedNeverFinishes` | src/llb/executor/durability_journal.py:103-120 | no row, nor any start of one, completes a line that something was torn off before it |
| `JournalText.PrefixOfRow` | src/llb/executor/durability_journal.py:143-146 | of the starts of a row only the whole row is a finished object |
| `CaseJournals.ReadLines` | src/llb/executor/durability_journal.py:101-122 | the loading loop counts and stores exactly the readable rows, a later one replacing an earlier |
| `CaseJournals.CaseJournal.Load` | src/llb/executor/durability_journal.py:97-125 | loading adds the file's readable rows to the table |
| `CaseJournals.CaseJournal.Record` | src/llb/executor/durability_journal.py:130-147 | recording appends one trimmed row under a new id whose contract accepts it, and otherwise changes nothing |
| `CaseJournals.TruncationKeeps` | src/llb/executor/durability_journal.py:97-125 | a journal torn at any character keeps the invariant of its history |
| `CaseJournals.AppendKeeps` | src/llb/executor/durability_journal.py:130-147 | appending under an id that does not load keeps the invariant, whatever was torn before |
| `CaseJournals.LoadAfterAppend` | src/llb/executor/durability_journal.py:97-147 | an appended row is added after an ended line, and is lost together with a torn one |
| `CaseJournals.StartLoadsAStart` | src/llb/executor/durability_journal.py:97-147 | any start of a journal, in characters, loads a start of the recorded rows, and the whole loads all |
| `Cases.TrimIsIdempotent` | src/llb/executor/durability_journal.py:134-137 | trimming a state to its journaled columns a second time changes nothing |
| `DurableRun.ExecuteCasesDurable` | src/llb/executor/durability.py:94-129 | from any table and counters it is handed, the loop over items leaves the journal, the table, the tallies and the batch of the specified session |
| `DurableRun.BatchIsByItem` | src/llb/executor/durability.py:113-129 | item by item the batch holds the score of the state, its retrieved chunks or none, and its answer or the empty text |
| `DurableRun.CallsAreAccounted` | src/llb/executor/durability.py:112-129 | over a session, calls are the live cases plus case retries plus backend relaunches, the live cases being those recorded and one whose row broke its contract |
| `DurableRun.SessionKeeps` | src/llb/executor/durability.py:113-124 | a session from a good journal keeps it good and never knows less than it |
| `DurableRun.VisitsLeaveStarts` | src/llb/executor/durability.py:94-129 | each visit runs a session on what the ones before it left and leaves a start of its file, or all of it |
| `DurableRun.JournalSurvivesKills` | src/llb/executor/durability_journal.py:97-147 | after any sequence of sessions, each killed at any item and any character, the journal loads only rows that a session set out to write before it was killed, at most one per id |
| `DurableRun.CompletedBatch` | src/llb/executor/durability.py:114-129 | a completed session has one row per item in item order, each the score of that item's journaled state |
| `DurableRun.ResumedBatch` | src/llb/executor/durability.py:94-129 | with a deterministic runner any sequence of killed sessions ends in the batch of the items' outcomes |
| `DurableRun.ResumeEqualsUninterrupted` | src/llb/executor/durability.py:106-129 | the resumed batch equals that of an uninterrupted run, which completes too |
| `AutoRag.AutoRagJournal.Complete` | src/llb/auto_rag/journal.py:66-71 | a stage's result is durable before its completion event is written |
| `AutoRag.AutoRagJournal.RunStages` | src/llb/auto_rag/run.py:20-57 | the loop over stages leaves the directory and outcome of the specified run, killed before any write |
| `AutoRag.RunKeeps` | src/llb/auto_rag/run.py:27-57 | one run keeps results a prefix of the stages, overwrites none, calls only stages without a result on exactly the earlier outputs, and completes only with all eight |
| `AutoRag.OtherSettingsAreRefused` | src/llb/auto_rag/journal.py:36-44 | a run whose settings differ from the pinned ones calls no stage, changes nothing and is refused |
| `AutoRag.OnlyPinnedSettingsRun` | src/llb/auto_rag/journal.py:36-52 | over any sequence of runs the first that can write pins its settings; a later run is refused exactly if its settings differ; every run that calls a stage or completes has the pinned ones |
| `AutoRag.DirectoryIsOk` | src/llb/auto_rag/journal.py:36-84 | from an empty directory, over any sequence of runs, results are a prefix and each completion event has its durable result |
| `AutoRag.ResultsOnlyGrow` | src/llb/auto_rag/run.py:31-46 | no run loses or overwrites a result of an earlier one |
| `AutoRag.CompletedStagesNeverRerun` | src/llb/auto_rag/run.py:32-46 | a completed stage is never run again, and what a stage saw is what the directory still holds |
| `AutoRag.EnoughWritesComplete` | src/llb/auto_rag/run.py:27-57 | a run in a new directory, or one pinned to its settings, completes if its stages finish and 27 writes remain |
| `AutoRag.ResumedOutputs` | src/llb/auto_rag/run.py:27-57 | with deterministic stages a run that completes after any earlier runs has the outputs of a single uninterrupted run, which completes too if its stages finish and its writes suffice |
| `Isolation.PollsIsTheStop` | src/llb/executor/vram.py:118-124 | polling takes between one reading and the limit, and stops at the first in tolerance and nowhere else |
| `Isolation.LastPollDecides` | src/llb/executor/vram.py:118-124 | the last reading is over tolerance exactly when every allowed reading is |
| `Isolation.Machine.WaitForReclaim` | src/llb/executor/vram.py:101-124 | the polling loop takes that many readings, at least one and no more than allowed, and reports the last residual |
| `Isolation.ShiftIsHeldByOthers` | src/llb/executor/isolation.py:110-124 | an over-tolerance cell is tolerated exactly when processes from before it hold all but at most the tolerance of what is held after it |
| `Isolation.Machine.IsolateCell` | src/llb/executor/isolation.py:90-138 | a cell takes its listing, baseline, work, polls and verdict in order, with the specified outcome |
| `Isolation.CellReports` | src/llb/executor/isolation.py:90-138 | only vLLM and llama.cpp cells are measured, and only with a reader; the residual is the last reading less the first, in tolerance exactly if reclaimed; a second listing is taken only over tolerance; failed work is reported as it is |
| `Isolation.EachVerdict` | src/llb/executor/vram.py:30-42 | a residual over tolerance is a leak exactly if the new processes hold more than the tolerance, and otherwise a shift |
| `Isolation.NextCellStarts` | src/llb/executor/isolation.py:103-129 | the sweep goes on exactly if the cell is not gated, its work failed, a reading came back in tolerance, or its new processes hold at most the tolerance |
| `Isolation.FailedWorkHidesALeak` | src/llb/executor/isolation.py:99-129 | on a device whose launched process keeps more than the tolerance, the sweep goes on after work that failed and aborts after work that returned |
| `Isolation.DriftIsBounded` | src/llb/executor/isolation.py:94-109 | n reclaimed cells, each starting at the last reading of the one before, drift at most n tolerances |
| `Sweeps.SweepDirectory.RunSweep` | src/llb/executor/isolation.py:166-214 | the loop over configurations leaves the markers, the clock and the report of the specified sweep, which counts the executions of that sweep, and no report after a leak |
| `Sweeps.CountsAddUp` | src/llb/executor/sweep_cells.py:153-161 | completed, skipped and failed add up to the number of cells |
| `Sweeps.OneResultEach` | src/llb/executor/isolation.py:174-214 | a sweep that does not abort has one result per configuration, in order, under its key, as long as markers lie under their own keys, which it keeps |
| `Sweeps.ReportCountsExecutions` | src/llb/executor/sweep_cells.py:153-161 | the report has one cell per configuration; it counts as completed the executions that finished, as failed those whose work failed, as skipped the cells not executed, and these add up to the cells |
| `Sweeps.CellIsVisited` | src/llb/executor/isolation.py:174-214 | a resumed sweep skips a cell exactly if its marker holds a whole result of a finished cell, which it repeats; otherwise it executes the cell, adds its result unless it leaked, and writes its marker exactly if it finished |
| `Sweeps.AttemptsAreSweeps` | src/llb/executor/isolation.py:166-214 | attempts follow one another on the same markers; one that is not killed is a whole sweep, and one killed inside a cell leaves the markers of the cells before it |
| `Sweeps.NoCellAfterALeak` | src/llb/executor/isolation.py:187-203 | within a sweep each cell starts where the one before ended and only if that was safe, and the sweep aborts exactly if its last one leaked |
| `Sweeps.AttemptsKeep` | src/llb/executor/isolation.py:166-214 | over any sequence of sweeps ended by success, a leak or a kill, a cell has a marker exactly when it finished, and if all resume no finished cell runs again |
| `Sweeps.SameCell` | src/llb/executor/sweep_cells.py:62-70 | two configurations share a key exactly when only their run names differ |
| `Controller.ContinueNamesAQuery` | src/llb/eval/multi_hop_prompts.py:28-45 | a decision to continue names one non-blank line without surrounding whitespace |
| `Controller.MarkedReplyIsRead` | src/llb/eval/multi_hop_prompts.py:35-45 | in a reply with the marker in any case, after any leading whitespace, the query is what follows the marker less one character for each that upper-casing adds up to there |
| `Controller.QueryRoundTrips` | src/llb/eval/multi_hop_prompts.py:28-45 | a query written on the line of the marker is read back, whatever precedes it and whatever lines follow, if upper-casing adds no more characters than the padding has |
| `Controller.QueryIsReadIff` | src/llb/eval/multi_hop_prompts.py:38-45 | it is read back exactly then, or if the cut falls behind the query and what is left of the later lines names it; with only whitespace after it, exactly then |
| `Controller.ExpandingPrefixLosesTheQuery` | src/llb/eval/multi_hop_prompts.py:38-45 | one sharp s before the marker, and no padding after it, turns a request to continue into a stop |
| `Controller.ReplyStopsIff` | src/llb/eval/multi_hop_prompts.py:28-45 | a reply, whatever markers it holds, stops exactly when its upper case holds no continue marker or only whitespace is left behind the place of the first |
| `Controller.BothMarkersContinue` | src/llb/eval/multi_hop_prompts.py:28-45 | a reply that states the stop marker and then the continue marker continues |
| `Controller.StopMarkerIsAsked` | src/llb/eval/multi_hop_prompts.py:28-45 | the stop marker after the continue marker is the next query, where without it the reply would stop |
| `Controller.PositionalKeysAreExact` | src/llb/eval/multi_hop_prompts.py:48-53 | chunks without an id share a key exactly when they share document and span |
| `MultiHop.Retrieve` | src/llb/eval/multi_hop.py:62-77 | the merging loop gathers each chunk with an unseen key, once, after what was gathered |
| `MultiHop.GathersFirstOfEach` | src/llb/eval/multi_hop.py:62-77 | gathering hop by hop gives the first chunk of each key among all that was retrieved, and the seen keys are just theirs |
| `MultiHop.FirstOfEachIsExact` | src/llb/eval/multi_hop.py:66-71 | those chunks have distinct keys, cover every key, and are each the first of theirs |
| `MultiHop.HopsAreBounded` | src/llb/eval/multi_hop.py:114-121 | there are between one and max(1, max_hops) hops, ending at the first reply that does not continue or at the bound |
| `MultiHop.FailedCallStops` | src/llb/eval/multi_hop.py:88-109 | a failed controller call stops the loop whatever it said |
| `MultiHop.EachHopAsksTheNamedQuery` | src/llb/eval/multi_hop.py:62-64 | the first hop asks the question, each later one the query the last reply named |
| `MultiHop.CallsAreAccounted` | src/llb/eval/multi_hop.py:94-152 | model calls are the hops plus one exactly when something was gathered, and the tokens are the sum over just those calls |
| `MultiHop.GatheredOnlyGrows` | src/llb/eval/multi_hop.py:65-73 | what was gathered only grows at its end |
| `MultiHop.RunCase` | src/llb/eval/multi_hop.py:157-202 | the graph's loop ends in the answer after that many hops: a miss without another call if nothing was gathered, and otherwise the reply of one more call, as it is classified |
| `RuntimeFloor.VersionRoundTrips` | src/llb/backends/runtime_floor.py:66-73 | a printed version is read back, whatever text without digits precedes it |
| `RuntimeFloor.TupleOrderIsTotal` | src/llb/backends/runtime_floor.py:76-81 | of two version tuples exactly one is smaller unless they are equal |
| `RuntimeFloor.TupleOrderIsNumericIff` | src/llb/backends/runtime_floor.py:76-81 | the tuple order agrees with the zero-padded numeric order except exactly where the smaller tuple lacks only zeros |
| `RuntimeFloor.BelowIsNumericIff` | src/llb/backends/runtime_floor.py:76-81 | so a running version is judged numerically against its floor except exactly in that case |
| `RuntimeFloor.ShorterVersionIsBelow` | src/llb/backends/runtime_floor.py:76-81 | a running version that stops short of its floor counts as below it, and numerically is only if more than zeros is missing |
| `RuntimeFloor.MergedFloorIsLarger` | src/llb/backends/runtime_floor.py:93-100 | for parseable floors the merged floor is the larger |
| `RuntimeFloor.MergeSkipsAsEither` | src/llb/backends/runtime_floor.py:93-100 | unless an unreadable pin meets a readable floor, the merged floor skips a runtime exactly when either floor alone does |
| `RuntimeFloor.MergeIsExact` | src/llb/backends/runtime_floor.py:93-100 | that holds for all runtimes except just when the pin is unreadable and the artifact asks for more than a single zero |
| `RuntimeFloor.SourceFloorSkip` | src/llb/backends/runtime_floor.py:129-148 | with a readable pin a source is skipped exactly when the running version is below the pin or the artifact's floor, with an unreadable one never, and the skip names a floor of the two that it is below |
| `Resolver.RankingIsStable` | src/llb/backends/resolver_sources.py:49-50 | the sort holds every position, best quality first, ties in declared order |
| `Resolver.CandidateSources` | src/llb/backends/resolver_sources.py:40-52 | the loop over backends gives the candidates of the specification |
| `Resolver.CandidatesAreRanked` | src/llb/backends/resolver_sources.py:30-52 | the candidates are exactly the declared sources of known backends, in strict order of preference |
| `Resolver.Resolve` | src/llb/backends/resolver.py:56-110 | the choice is the first of all declared sources that the host can serve, by vLLM before Ollama before llama.cpp, then by more bits per weight, then by declared order; none only if it can serve none; and each source is reported in that order, with what the host answers |
| `Resolver.RunsIff` | src/llb/backends/resolver.py:56-86 | a candidate runs exactly if the host has its source, fits it, and its runtime is below neither its pin nor what its artifact asks, an unreadable pin ruling that out |
| `Resolver.SkipNamesItsCause` | src/llb/backends/runtime_floor.py:93-148 | a skip names the candidate, the running version, a floor it is below, and the architecture of the artifact or else of the pin |
| `Resolver.BelowEitherFloorNeverRuns` | src/llb/backends/resolver.py:61-83 | with a readable pin, a runtime below the pin or below the artifact's floor never runs that candidate |
| `Ranks.SortLabels` | src/llb/eval/verbosity_sensitivity.py:33-36 | the sort holds every label once, larger values first and among equal ones the label that is smaller where they first differ |
| `Ranks.Rank` | src/llb/eval/verbosity_sensitivity.py:33-46 | each label's rank is one plus the strictly greater values plus half of the other equal ones |
| `Ranks.RanksFollowValues` | src/llb/eval/verbosity_sensitivity.py:33-46 | ranks are equal exactly for equal values, and smaller exactly for larger values |
| `Ranks.RanksIgnoreLabels` | src/llb/eval/verbosity_sensitivity.py:33-46 | renaming the labels, ties included, changes no rank |
| `Ranks.RanksAddUp` | src/llb/eval/verbosity_sensitivity.py:33-46 | the ranks of n labels add up to n(n+1)/2 |
| `VramGuard.SafeUtilIsLargestSafe` | src/llb/executor/contention.py:91-94 | the safe share is the request or the largest hundredth below the free fraction, zero without a device, and exceeds only a negative request |
| `VramGuard.TargetIsFree` | src/llb/executor/contention.py:91-97 | the target lies between zero and what is free beyond the margin |
| `VramGuard.FittingLaunchIsCovered` | src/llb/executor/contention.py:95-97 | what fits needs at most its target, which is free; the cut to whole MB hides less than one |
| `VramGuard.MoreFreeIsNoWorse` | src/llb/executor/contention.py:91-116 | more free memory never lowers the share, the target or the verdict |
| `VramGuard.ActionInHundredths` | src/llb/executor/contention.py:91-116 | for a request of whole hundredths the plan in MB: the target is the lesser of the request and the hundredths free beyond the margin; it aborts if that is nothing or a whole MB short of weights and allowances, derates if it is less than the request, and otherwise launches |
| `VramGuard.WaitTargetInHundredths` | src/llb/executor/contention.py:163-164 | the wait is for the request's hundredths in whole MB and the margin |
| `VramGuard.TruncIsTowardsZero` | src/llb/executor/contention.py:95-96 | the cut to whole MB is towards zero, by less than one |
| `VramGuard.WaitIsEnoughIff` | src/llb/executor/contention.py:163-167 | for any request, reaching the wait's target keeps it, for all amounts, exactly when it asks for nothing or for whole hundredths of a device that are a whole number of MB |
| `VramGuard.WaitLaunchesIff` | src/llb/executor/contention.py:91-167 | reaching the wait's target ends in a launch as requested, for all amounts, exactly when the model fits with just the target free and the request is within the slack of hundredths that its whole MB hold |
| `VramGuard.WaitDeratesIff` | src/llb/executor/contention.py:91-167 | reaching it can end in a derated launch exactly when the hundredths that are free then, or as soon as the model fits if that takes more, are less than the request beyond the slack |
| `VramGuard.PollFree` | src/llb/executor/contention.py:188-212 | a wait that ends at all takes exactly the naps to the first sufficient reading or to the end of its time, within one poll of the timeout |
| `VramGuard.PollEndsIff` | src/llb/executor/contention.py:206-212 | the wait ends exactly when its poll interval is positive, it has no time to wait, or enough is free at some reading |
| `VramGuard.ApplyGuard` | src/llb/executor/contention.py:156-185 | the plan uses the first reading's total and the free memory of that reading or, after a wait, of the one that ended it, and there is none without a device |
| `ContextWindow.BudgetTestIsImplied` | src/llb/backends/context_fit.py:82-86 | the explicit budget's own test is implied by the window's |
| `ContextWindow.DeclaredIsLeastKnown` | src/llb/backends/context_fit.py:28-45 | the declared window is the least known of the planner's or else the model's, the requested cap and the explicit budget, and zero if none is known |
| `ContextWindow.BudgetRefinesCheck` | src/llb/backends/context_budget.py:183-189 | given room, the budget admits nothing that the check refuses, and they differ on just two sizes |
| `ContextWindow.RefinesIffRoom` | src/llb/backends/context_budget.py:183-189 | that holds for all prompts exactly when the window is unknown or leaves room |
| `ContextWindow.ProbeOnlyNarrowsCheck` | src/llb/backends/served_window.py:244-257 | a probed window never makes the check admit what the declared window refuses |
| `ContextWindow.ProbeNarrowsBudgetIff` | src/llb/backends/context_budget.py:223-245 | for the budget that holds exactly when the declared window leaves no room either or the bound one still does |
| `Intervals.IntervalIsTheRoots` | src/llb/conflicts/interval_stats.py:14-27 | the ends are the two roots of the quadratic, the clamps change nothing, k/n lies between them and the width is positive |
| `Intervals.NothingTried` | src/llb/conflicts/interval_stats.py:16-17 | an empty sample has the whole range |
| `Intervals.IntervalMirrors` | src/llb/conflicts/interval_stats.py:14-27 | the interval of the failures mirrors that of the successes |
| `Intervals.IntervalRises` | src/llb/conflicts/interval_stats.py:14-27 | more successes move both ends strictly up |

## Left out

- The text of error messages, log lines, notes and rendered prompts, and the order of error messages.
- Exceptions raised inside a migration transform or a stage hook; a hook that raises between two stages is a kill there.
- The class of a registry error where the bundle reader treats two alike; it is kept where the caller sees it.
- YAML, CSV and Parquet members of a bundle, the manifest document itself, and the refusal to describe a bundle with no member.
- Universal newlines when a file is read as text, and the limit on the digits of a parsed integer.
- Kills inside the bytes of one character: a journal torn there is not UTF-8, and the source's load raises on it outside its own error handling, so that run cannot be resumed until the torn bytes are removed. The model's kills fall between characters.
- Digits outside ASCII in runtime versions; the pattern in the source would accept them.
- `verify_resume_meta`, the digests of configuration and gold set, and the choice of a resume target: equality tests on whole values.
- The score of a case: a function of the journaled columns, the two retrieval columns excepted, which the batch copies.
- A torn last line of the auto-RAG event log: it is appended to and never read back.
- A stage result that does not read back through its contract: results are durable and atomic here.
- Thermal cooldown, GPU samples and the fields of a cell result that hold them, and writing the thermal flag into the run bundle.
- A device reader that raises inside a cell: the source records it like failed work.
- A marker file that is not UTF-8 text, which ends the source's sweep with an error.
- Ollama's eviction before a wait: only its effect on later readings is modelled.
- The limit that the graph library puts on the number of its steps.
- Floating-point rounding in shares, waits, ranks and interval ends.
- `VramGuard.PollFree`: requires that the wait ends, because without a poll interval the source's loop need not; `PollEndsIff` says when it does.
- `VramGuard.ApplyGuard`: requires that the wait ends when it is asked to wait, for the same reason.
- The planner, the bits-per-weight lookup, the probes and the sort of the standard library beyond its contract.
