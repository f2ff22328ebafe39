# RusTok tooling and revision store: a Dafny model

This project models the parts of RusTok that carry real state, parsing or protocol reasoning, and
proves what they guarantee over all inputs, all runs and all interleavings.

| files | what they model |
|---|---|
| `UseTree`, `Braces` | the Rust `use`-tree flattener of the architecture guard |
| `RustStrings` | the readers of string literals and method bodies in Rust source |
| `YamlScalar` | the directory scalars of `dependabot.yml` |
| `EnvFile` | the env-file upsert of the development installer |
| `MarkdownEvents`, `MarkdownSections` | the Markdown event-stream reader and its section lookup |
| `GitBatch` | the `git cat-file --batch` stream reader |
| `SourceSnapshot`, `SnapshotTree`, `SnapshotCopy`, `SnapshotSources`, `PathOrder` | canonical source snapshots: collecting, validating, copying |
| `FreshEvidence` | the publish-or-fail protocol of `verify-fresh` |
| `RevisionDiff`, `RevisionStore`, `RevisionHistory`, `RevisionRace` | the content revision store: diffs, the service, whole histories, interleaved calls |
| `RemoteRunner` | the remote validation runner with its heartbeat thread |
| `PublishProtocol` | the live publish client |
| `ReviewLedger`, `ReviewRounds` | the round-based review ledger |
| `FeatureClosure`, `GraphPaths` | the module dependency and server feature contracts |
| `Text` | trimming, joining and searching, shared by the text models |

## How the model is built

* Code that changes things step by step is imperative here too: the revision service, the ledger and
  the event iterator are classes; the scanners and folds are methods with loops. Each method is proved
  against a function of its inputs or of the old state, and the promises are lemmas about that function.
* Protocols with several threads or processes are step relations. Replies, command results, crashes and
  scheduling are arbitrary. The stop flag of the runner is read with relaxed ordering, so a read may miss
  the store; only the join separates the heartbeats from the failure report.
* SHA-256 and JSON encoding are injective constructors. A fresh UUID is an identifier not drawn before.
* The revision store follows the SeaORM backend: latest means highest number, ties go either way, named
  revisions survive retention, and no index forbids equal numbers.
* White space is the exact set of `str.strip` in Python and of `str::trim` in Rust.

## Where the code does not keep a promise

Each of these is a lemma with the exact condition under which the promise holds.

* A group `self::{self}` nested in another group is read as the outer path (`UseTree.FlattenExact`).
* A single-quoted YAML scalar with a doubled quote reads as empty, and a plain scalar is cut at any `#`
  (`YamlScalar.SingleQuotedRoundTrip`, `YamlScalar.PlainRoundTrip`).
* A file whose name holds a backslash passes for a file in a subdirectory (`SnapshotTree.BackslashExact`),
  and the copy of a validated tree fails exactly when there is one (`SnapshotCopy.CopyValidates`).
* Two tracked writes may get the same revision number: exactly when another call stores that number between
  the read and the write (`RevisionRace.WriteDistinctExactly`, `RevisionRace.LostNumber`). In a sequential
  run a number comes back exactly when some issued number lies above all live ones
  (`RevisionHistory.NumberIsNewExactly`, `RevisionHistory.NumberReused`). `KeepLast(0)` keeps everything
  (`RevisionHistory.KeepLastExactly`); a snapshot interval of zero stops the call after the write.
* A run of `verify-fresh` that ends without publishing after it created its directory leaves the plan unusable:
  no later run on it publishes or fails (`FreshEvidence.CanAbandon`, `FreshEvidence.AbandonedForGood`).
* A diff between contents that are not both objects is empty (`RevisionDiff.ApplyExact`).
* A component named like the path of a later one captures that path, and no sequence of marks by path can
  then finish the round (`ReviewRounds.RoundAdvances`, `ReviewRounds.CapturedNeverEnds`). Of the components
  found on disk only one at `crates` or `apps` itself can be captured (`ReviewRounds.OnlyRootsCaptured`,
  `ReviewRounds.CaptureExample`).
* A status read that is not accepted, but whose status is not one of the awaited ones, is polled past
  (`PublishProtocol.PollEndsExactly`, `PublishProtocol.UnacceptedPolledPast`). A call with automatic approval
  succeeds without the release being published exactly when ten answers after the approval leave it
  open (`PublishProtocol.UnpublishedExactly`, `PublishProtocol.SucceedsUnpublished`). Used together with the
  confirmation of the review it may approve on a reading that no longer offers it
  (`PublishProtocol.ApprovesReadyExactly`, `PublishProtocol.ApprovesUnready`).
* The feature checks miss `mod-` features switched on through features of another kind and optional
  modules behind required ones (`FeatureClosure.SideDoor`, `FeatureClosure.RequiredBridge`); the guarantee
  holds exactly when such detours of the two graphs agree (`FeatureClosure.ExactIffDetoursAgree`).
* A second env-file update is a no-op exactly when no line that sets no key ends in more carriage returns
  than there are keys (`EnvFile.FixpointExact`, `EnvFile.CarriageReturnsDrift`).

The README of `rustok-revisions` calls the storage delta-based; the code stores full contents, and so does
the model.

## Model

| member | source | states |
|---|---|---|
| `UseTree.ParseUseTree` | scripts/architecture_dependency_guard.py:113-164 | the recursive parser with its loops computes the flattening of its text; the recursion ends because items get shorter |
| `UseTree.ClosingBrace` | scripts/architecture_dependency_guard.py:120-131 | the depth counter stops at the brace that matches the first one, or reports that there is none |
| `UseTree.TopLevelItems` | scripts/architecture_dependency_guard.py:134-154 | the comma loop yields the trimmed, non-blank pieces between commas at depth zero |
| `UseTree.FlattenEach` | scripts/architecture_dependency_guard.py:156-164 | each item's paths get the prefix, a plain `self` becomes the prefix without its colons |
| `UseTree.DissectBraced` | scripts/architecture_dependency_guard.py:120-134 | for any nested text the group found is exactly the one opened first |
| `UseTree.SplitInside` | scripts/architecture_dependency_guard.py:135-154 | splitting a printed group gives back its items whatever white space and trailing comma they were laid out with |
| `UseTree.FlattenPrinted` | scripts/architecture_dependency_guard.py:113-164 | for every use tree of any depth and layout, flattening its text gives its paths in order |
| `UseTree.FlattenExact` | scripts/architecture_dependency_guard.py:156-163 | the paths are recovered if and only if no nested group is `self::{self, ..}` |
| `UseTree.SelfOfSelfIsLost` | scripts/architecture_dependency_guard.py:160-161 | `a::{self::{self}}` is read wrongly |
| `Braces.FindCloseSkips` | xtask/src/runtime_parsing_helpers.rs:113-126 | the search for a closing brace skips any text that closes what it opens |
| `RustStrings.ExtractStringMethod` | xtask/src/runtime_parsing_helpers.rs:166-213 | the reader computes the decoding of the first literal after the method's signature |
| `RustStrings.DecodeLiteral` | xtask/src/runtime_parsing_helpers.rs:173-212 | the character loop with its escapes computes the literal's value or fails |
| `RustStrings.DecodeRoundTrip` | xtask/src/runtime_parsing_helpers.rs:176-212 | every mix of literal characters, simple, `\x` and `\u` escapes decodes to the string it encodes |
| `RustStrings.DecodeSound` | xtask/src/runtime_parsing_helpers.rs:176-212 | whatever is accepted is such an encoding of the result, followed by a quote |
| `RustStrings.HexDigitsParse` | xtask/src/runtime_parsing_helpers.rs:188-205 | hexadecimal digits of either case with any leading zeros are accepted with their value |
| `RustStrings.StringMethodRoundTrip` | xtask/src/runtime_parsing_helpers.rs:166-213 | the string returned by a method is recovered from its source text |
| `RustStrings.ExtractMethodBody` | xtask/src/runtime_parsing_helpers.rs:104-129 | the body loop returns the text up to the matching brace |
| `RustStrings.MethodBodyExact` | xtask/src/runtime_parsing_helpers.rs:104-129 | a body with balanced braces is returned exactly, whatever follows |
| `RustStrings.ExtractStringLiterals` | xtask/src/runtime_parsing_helpers.rs:131-164 | the scanner loop computes the list of quoted values |
| `RustStrings.LiteralsRoundTrip` | xtask/src/runtime_parsing_helpers.rs:131-164 | every list of quoted strings with quote-free separators is recovered element by element |
| `YamlScalar.ParseDirectoryValue` | scripts/ci/check-dependabot-directories.py:20-51 | the parser with its scan loop computes the scalar's value |
| `YamlScalar.ScanForQuote` | scripts/ci/check-dependabot-directories.py:32-42 | the scan stops at the first quote that is not escaped |
| `YamlScalar.TwoPassesIsUnescape` | scripts/ci/check-dependabot-directories.py:48-50 | the two successive replacements equal one left-to-right unescaping on text whose quotes are escaped |
| `YamlScalar.QuotedMeaning` | scripts/ci/check-dependabot-directories.py:29-51 | an accepted double-quoted scalar has the one-pass unescaping of its body as value, every other outcome is empty |
| `YamlScalar.DoubleQuotedRoundTrip` | scripts/ci/check-dependabot-directories.py:20-51 | every text, quoted and escaped, with or without a comment, parses back to itself |
| `YamlScalar.SingleQuotedRoundTrip` | scripts/ci/check-dependabot-directories.py:29-51 | a single-quoted scalar survives if and only if it holds no quote |
| `YamlScalar.PlainRoundTrip` | scripts/ci/check-dependabot-directories.py:24-27 | a plain scalar survives if and only if it holds no `#` |
| `EnvFile.UpsertEnvKey` | xtask/src/install_dev.rs:399-420 | the line loop rewrites or appends one key |
| `EnvFile.UpsertEnvFile` | xtask/src/install_dev.rs:369-397 | the fold over the keys, the added final newline, the missing file and the dry run |
| `EnvFile.UpsertAllForm` | xtask/src/install_dev.rs:385-415 | closed form of any number of keys: lines rewritten in place, absent keys appended in order |
| `EnvFile.UpsertFileLines` | xtask/src/install_dev.rs:369-420 | the lines of the written file have that form for any content, with one carriage return stripped from each other line per key |
| `EnvFile.ReadBack` | xtask/src/install_dev.rs:399-420 | for any content every key reads back its value from every line that sets it |
| `EnvFile.OtherLinesKept` | xtask/src/install_dev.rs:404-415 | every other line keeps its place and, trailing carriage returns aside, its text, and only assignments are added |
| `EnvFile.FixpointExact` | xtask/src/install_dev.rs:369-420 | for any content a second update leaves the file byte for byte the same if and only if no line that sets no key ends in more carriage returns than there are keys |
| `EnvFile.Fixpoint` | xtask/src/install_dev.rs:369-420 | so content without carriage returns is settled by one update |
| `EnvFile.CarriageReturnsDrift` | xtask/src/install_dev.rs:404-417 | with one key, a line that ends in two carriage returns is changed again by a second update |
| `GitBatch.ReadBlobs` | xtask/src/migrations.rs:406-447 | the loop over the tree entries reads from one shared position and stops at the first mismatch |
| `GitBatch.ReadBlob` | xtask/src/migrations.rs:409-425 | one header, body and separator |
| `GitBatch.HeaderRoundTrip` | xtask/src/migrations.rs:409-420 | a written header is parsed back to its size |
| `GitBatch.StreamRoundTrip` | xtask/src/migrations.rs:393-447 | arbitrary blobs within the limit are read back in order and exactly the stream is consumed |
| `GitBatch.CutStream` | xtask/src/migrations.rs:406-447 | no proper prefix of a stream is accepted |
| `GitBatch.AcceptedIsFramed` | xtask/src/migrations.rs:406-447 | whatever is accepted is a sequence of headers, for exactly the objects asked for and their sizes, blobs and newlines |
| `SourceSnapshot.CollectSnapshotFiles` | xtask/src/migrations.rs:503-541 | the recursive walk appends the tree's files or fails |
| `SourceSnapshot.SortCanonical` | xtask/src/migrations.rs:487-489 | sorting distinct paths gives the canonical list of the same map |
| `SourceSnapshot.CanonicalEqual` | xtask/src/migrations.rs:214-220 | two canonical lists are equal if and only if their path-to-(mode, content) maps are |
| `SnapshotTree.CollectMeaning` | xtask/src/migrations.rs:503-541 | collecting succeeds on exactly the ordinary trees of acceptable files and lists all of them |
| `SnapshotTree.SafeExact` | xtask/src/migrations.rs:144-162 | a path is safe if and only if every component is a real name other than `.git` without backslash, colon, NUL or line break |
| `SnapshotTree.ValidateExact` | xtask/src/migrations.rs:473-501 | for every tree, validation accepts it if and only if it is made of ordinary acceptable files, no two with the same path string, and holds those files, nothing extra, missing or changed |
| `SnapshotTree.BackslashExact` | xtask/src/migrations.rs:528-532 | an accepted tree has its files in place if and only if no name has a backslash |
| `SnapshotTree.BackslashImpostor` | xtask/src/migrations.rs:528-532 | one misnamed file passes for a file in a subdirectory |
| `SnapshotCopy.CopyFiles` | xtask/src/migrations.rs:865-874 | the copy loop reads each expected file and writes it into the new tree |
| `SnapshotCopy.PutSucceeds` | xtask/src/migrations.rs:870-873 | writing a source file into a part of its own source meets no conflict |
| `SnapshotCopy.CopyValidates` | xtask/src/migrations.rs:865-876 | a copy of a valid snapshot succeeds and validates if and only if no file of the source has a backslash in its name |
| `SnapshotSources.WorkingMap` | xtask/src/migrations.rs:254-283 | the working snapshot holds exactly the listed paths that still exist |
| `SnapshotSources.WorkingSorted` | xtask/src/migrations.rs:254-283 | walking the ordered path set yields a canonical list |
| `SnapshotSources.GitEqualsWorking` | xtask/src/migrations.rs:371-460 | a commit's snapshot equals the working tree's if and only if both hold the same files |
| `FreshEvidence.NeverBoth` | xtask/src/migrations.rs:806-829 | in every run of any number of processes the report and the failure never both exist |
| `FreshEvidence.ReportIsEarned` | xtask/src/migrations.rs:557-829 | a report exists only if one process passed every check there is, in order, and removed its scratch tree |
| `FreshEvidence.FailureIsEarned` | xtask/src/migrations.rs:806-829 | a failure exists only if the process that owns the directory missed a check, could not write its pending report or could not remove its scratch tree |
| `FreshEvidence.CanPublish` | xtask/src/migrations.rs:557-829 | while nobody owns the directory, whatever was tried before, a schedule leads to a report with no failure and nothing pending |
| `FreshEvidence.CanFail` | xtask/src/migrations.rs:806-822 | likewise to a failure without a report, the scratch tree removed or left behind |
| `FreshEvidence.CanAbandon` | xtask/src/migrations.rs:578-806 | a process may die and leave the directory with neither file |
| `FreshEvidence.AbandonedForGood` | xtask/src/migrations.rs:578-579 | a directory whose owner ended without publishing never changes again |
| `FreshEvidence.OnePublisher` | xtask/src/migrations.rs:578-579 | at most one process ever publishes |
| `FreshEvidence.VerdictIsFinal` | xtask/src/migrations.rs:578-829 | report, failure and ownership of the directory never change back |
| `FreshEvidence.NoReportAfterFailure` | xtask/src/migrations.rs:816-829 | after a failure no later or concurrent process publishes |
| `MarkdownEvents.EventStream.Children` | xtask/src/docs_markdown.rs:77-91 | draining a subtree takes the events up to the matching end and consumes that end |
| `MarkdownEvents.ParseDocument` | xtask/src/docs_markdown.rs:94-159 | the event loop builds the document block by block |
| `MarkdownEvents.ReadTable` | xtask/src/docs_markdown.rs:123-145 | the row loop fills header and rows |
| `MarkdownEvents.ReadCells` | xtask/src/docs_markdown.rs:133-137 | the cell loop reads a row's cells |
| `MarkdownEvents.ReadItems` | xtask/src/docs_markdown.rs:146-154 | the item loop reads an unordered list |
| `MarkdownEvents.ChildrenOfElement` | xtask/src/docs_markdown.rs:77-91 | called after a start, it returns that element's events and leaves the stream just past its end |
| `MarkdownEvents.TakeMatches` | xtask/src/docs_markdown.rs:77-91 | on any well-nested stream the end it stops at is the matching one |
| `MarkdownEvents.ForestOf` | xtask/src/docs_markdown.rs:77-91 | every well-nested stream is the event stream of a forest |
| `MarkdownEvents.ParseForest` | xtask/src/docs_markdown.rs:94-159 | each top-level block of any forest is visited exactly once, in order |
| `MarkdownEvents.TableRecovered` | xtask/src/docs_markdown.rs:123-145 | header, rows and cells of one table are recovered one for one |
| `MarkdownEvents.DocumentRecovered` | xtask/src/docs_markdown.rs:94-159 | every well-nested stream comes from a forest, and the parsed document is its top level in order: the k-th table is the k-th top-level table with header, rows and cells, likewise headings, items, links and code |
| `MarkdownEvents.MarkupRead` | xtask/src/docs_markdown.rs:19-38 | any inline markup is read as the text one sees, its code spans and its link targets |
| `MarkdownSections.SectionExact` | xtask/src/docs_markdown.rs:167-185 | a section is found if and only if its title occurs once at its level |
| `MarkdownSections.SectionMeaning` | xtask/src/docs_markdown.rs:167-185 | an offset lies in the section if and only if it is after that heading, in the document, and before every later heading at least as important |
| `MarkdownSections.TableInExact` | xtask/src/docs_markdown.rs:187-202 | a table is found if and only if one heading has that level and title and exactly one table starts below it with those column titles, and it is that table |
| `MarkdownSections.SectionsDisjoint` | xtask/src/docs_markdown.rs:180-184 | sections of one level do not overlap |
| `MarkdownSections.TableInOneSection` | xtask/src/docs_markdown.rs:187-202 | one table is not found under two sections of the same level |
| `MarkdownSections.ParsedTableInOneSection` | xtask/src/docs_markdown.rs:94-202 | the same in every document parsed from a stream whose top-level blocks follow one another |
| `MarkdownSections.ParsedTableExact` | xtask/src/docs_markdown.rs:94-202 | the same for any parsed text, in terms of the headings and tables at the top level of its own forest |
| `RevisionDiff.Compute` | rustok-revisions/src/diff.rs:8-61 | the two loops compute additions, removals and changes |
| `RevisionDiff.Apply` | rustok-revisions/src/diff.rs:64-93 | removals, additions and changes applied in that order |
| `RevisionDiff.ApplyField` | rustok-revisions/src/diff.rs:64-93 | on any object the differing fields are fixed and the others left alone |
| `RevisionDiff.ApplyExact` | rustok-revisions/src/diff.rs:8-93 | the diff from a to b turns a into b if and only if both are objects or they are equal |
| `RevisionDiff.DiffRecords` | rustok-revisions/src/diff.rs:8-61 | a diff records the new value of an added field, the old value of a removed one and both of a changed one |
| `RevisionDiff.ReverseSwaps` | rustok-revisions/src/diff.rs:8-61 | the reverse diff is the same record with additions and removals, and both values of each change, exchanged |
| `RevisionDiff.ReverseUndoes` | rustok-revisions/src/diff.rs:8-93 | for any two contents the reverse diff undoes a diff |
| `RevisionDiff.DisjointCommute` | rustok-revisions/src/diff.rs:64-93 | diffs of different fields commute on any object |
| `RevisionDiff.ReplayChain` | rustok-revisions/src/diff.rs:8-93 | folding the diffs of any chain rebuilds the last content from the first |
| `RevisionStore.RevisionService.GetLatestRevision` | rustok-revisions/src/seaorm_backend/backend.rs:63-79 | a revision of the key with the highest number, or none |
| `RevisionStore.RevisionService.CreateRevisionWithTracker` | rustok-revisions/src/service.rs:25-98 | number, parent and automatic name of a tracked write, the untracked case and the zero interval |
| `RevisionStore.SnapshotNameTells` | rustok-revisions/src/service.rs:90 | the automatic name tells the revision's number |
| `RevisionStore.RevisionService.CreateRevisionForCreate` | rustok-revisions/src/service.rs:101-134 | a root revision numbered one |
| `RevisionStore.RevisionService.RestoreRevision` | rustok-revisions/src/service.rs:201-253 | a new revision with the target's content and the target as parent, and both errors |
| `RevisionStore.RevisionService.CreateNamedVersion` | rustok-revisions/src/service.rs:256-287 | names a revision of the given content only |
| `RevisionStore.RevisionService.ListTop` | rustok-revisions/src/seaorm_backend/backend.rs:100-128 | the limited listing is the top of the key in descending order |
| `RevisionStore.RevisionService.ApplyRetentionPolicy` | rustok-revisions/src/service.rs:302-326 | the store after each policy and the number of revisions removed |
| `RevisionStore.RevisionService.DeleteRevision` | rustok-revisions/src/service.rs:329-331 | removes one revision and nothing else |
| `RevisionStore.RevisionService.CompareRevisions` | rustok-revisions/src/service.rs:181-198 | the diff of two stored contents, or not found |
| `RevisionHistory.RunDistinct` | rustok-revisions/src/service.rs:46-53 | in every sequential run live numbers within a key are pairwise distinct |
| `RevisionHistory.CreateDistinctExactly` | rustok-revisions/src/service.rs:110-132 | a create on existing content keeps them distinct if and only if number one is free |
| `RevisionHistory.RunConsecutive` | rustok-revisions/src/service.rs:46-53 | if the newest revision is never removed the numbers issued are exactly 1, 2, 3, .. |
| `RevisionHistory.KeepLastKeepsNewest` | rustok-revisions/src/seaorm_backend/backend.rs:197-227 | keeping the last revisions never removes a newest one |
| `RevisionHistory.KeepLastExactly` | rustok-revisions/src/seaorm_backend/backend.rs:197-227 | what is kept: the listed ones, the named ones, and everything when the count is zero |
| `RevisionHistory.KeepDaysExactly` | rustok-revisions/src/seaorm_backend/backend.rs:229-249 | what is kept: other keys, named revisions, and those not older than the cut-off |
| `RevisionHistory.RestoreBringsBack` | rustok-revisions/src/service.rs:201-253 | in every run a restore makes the target's content the latest one, unnamed, with the target as parent and an empty diff to it |
| `RevisionHistory.TrackWrites` | rustok-revisions/src/service.rs:25-98 | in every run a tracked write makes its own content and event the latest one, with what was latest as parent |
| `RevisionHistory.CreateWrites` | rustok-revisions/src/service.rs:101-134 | in every run a create makes its content the first and latest revision |
| `RevisionHistory.UntrackedWrites` | rustok-revisions/src/service.rs:34-45 | a write that is not tracked changes nothing |
| `RevisionHistory.RunImmutable` | rustok-revisions/src/service.rs:256-287 | a stored revision never changes, its name aside, in any run |
| `RevisionHistory.RunIssued` | rustok-revisions/src/service.rs:46-53 | in every sequential run, deletions and retention included, the numbers issued to a key are exactly 1 to m and every live number is among them |
| `RevisionHistory.NumberIsNewExactly` | rustok-revisions/src/service.rs:46-53 | in every sequential run the next number was never issued before if and only if no issued number lies above all live ones |
| `RevisionHistory.NumberReused` | rustok-revisions/src/service.rs:229-234 | a sequence of calls with a deletion in which number two is issued twice |
| `RevisionHistory.TrackedNamed` | rustok-revisions/src/service.rs:52-95 | in every run without manual naming or deletion in the key, with any events, times, restores and other keys in between, a tracked write is and stays named if and only if its number is a multiple of the interval |
| `RevisionHistory.TrackedDensity` | rustok-revisions/src/service.rs:79-95 | of any n consecutively numbered tracked writes in such a run between floor(n/k) and ceil(n/k) are named |
| `RevisionHistory.Perform` | rustok-revisions/src/service.rs:25-331 | every call of the service class is one operation of the history model, so what is proved of all histories holds of the service |
| `RevisionRace.ParentStoredEarlier` | rustok-revisions/src/service.rs:46-79 | under every interleaving each revision's parent was stored strictly earlier |
| `RevisionRace.NoParentCycle` | rustok-revisions/src/service.rs:210-250 | following parents never visits a revision twice and is bounded by the number of revisions stored |
| `RevisionRace.LiveParents` | rustok-revisions/src/service.rs:210-250 | the same for revisions still in the store, deletions included |
| `RevisionRace.WriteDistinctExactly` | rustok-revisions/src/service.rs:46-79 | under every interleaving a write makes two numbers equal if and only if another call stored that number between the write and the read it came from, and that revision is still there |
| `RevisionRace.LostNumber` | rustok-revisions/src/service.rs:46-79 | a schedule in which two writes get the same number |
| `RemoteRunner.AtMostOnce` | xtask/src/validation_remote_runner.rs:65-129 | in every interleaving completion and failure are each sent at most once, never a failure after an accepted completion |
| `RemoteRunner.EndsInAttempt` | xtask/src/validation_remote_runner.rs:30-131 | a runnable claim ends in an attempt, success means accepted, a claim that is not runnable sends nothing |
| `RemoteRunner.NoLateHeartbeat` | xtask/src/validation_remote_runner.rs:44-98 | no heartbeat after the failure report starts or the function returns |
| `RemoteRunner.CommandsGuarded` | xtask/src/validation_remote_runner.rs:134-176 | commands execute in order and only after version, crate, policy and digest matched; completion follows all of them |
| `RemoteRunner.ChecksExact` | xtask/src/validation_remote_runner.rs:134-176 | the checks let a claim through if and only if the workspace matches it |
| `RemoteRunner.MatchingIsCarriedOut` | xtask/src/validation_remote_runner.rs:65-95 | a returned call on a matching runnable claim has sent a completion or stopped at a command it ran |
| `RemoteRunner.MismatchIsRefused` | xtask/src/validation_remote_runner.rs:100-176 | on a claim that does not match nothing is run or completed and exactly one failure is reported |
| `RemoteRunner.CanSucceed` | xtask/src/validation_remote_runner.rs:65-131 | every matching runnable claim has a schedule that ends in an accepted completion |
| `RemoteRunner.CanStillFail` | xtask/src/validation_remote_runner.rs:65-131 | every command and the completion may fail, and the call then returns a failure |
| `RemoteRunner.CodesAllowed` | xtask/src/validation_remote_runner.rs:74-111 | every reason code sent is the default or one the claim allows |
| `RemoteRunner.CodesExact` | xtask/src/validation_remote_runner.rs:74-111 | the code is the suggested one if and only if there is one and the claim's list is empty or has it up to case |
| `RemoteRunner.CanBeat` | xtask/src/validation_remote_runner.rs:44-63 | while the heartbeat thread lives, its own steps can send another heartbeat |
| `RemoteRunner.EndsForAReason` | xtask/src/validation_remote_runner.rs:44-63 | the thread ends only once the flag is up or after a heartbeat of its own |
| `RemoteRunner.CanReturn` | xtask/src/validation_remote_runner.rs:44-131 | from every reachable state of the two threads some finite schedule makes the function return |
| `PublishProtocol.Poll` | xtask/src/registry_status.rs:67-90 | the poll loop computes the reads of one poll and the status it returns |
| `PublishProtocol.PollSafe` | xtask/src/registry_status.rs:67-90 | a poll adds one to ten reads, all but the last without a wanted status, and none after a rejected one |
| `PublishProtocol.PollEndsExactly` | xtask/src/registry_status.rs:74-87 | against every server a poll stops exactly at a failed read, an awaited status or the tenth read |
| `PublishProtocol.UnacceptedPolledPast` | xtask/src/registry_status.rs:74-87 | a server whose refusing answer is followed by another request and a success |
| `PublishProtocol.Open` | xtask/src/registry_publish_lifecycle.rs:22-77 | create, upload and validate, each only after the previous one was accepted |
| `PublishProtocol.OpenSafe` | xtask/src/registry_publish_lifecycle.rs:22-77 | it never approves, stops at the first refusal, and a failure is explained by the last exchange |
| `PublishProtocol.OpenExact` | xtask/src/registry_publish_lifecycle.rs:22-77 | how many of the three requests are sent, in terms of the replies and the artifact |
| `PublishProtocol.ReportStages` | xtask/src/validation_runner.rs:23-73 | the running, failed and passed reports around the stage's commands |
| `PublishProtocol.FollowUp` | xtask/src/registry_status.rs:3-32 | the review stage is reported exactly when it is open and confirmed, and the status is read again |
| `PublishProtocol.FollowUpSafe` | xtask/src/registry_status.rs:3-32 | what it returns is the newest read and not rejected, and it sent nothing or the two reports and that read |
| `PublishProtocol.StageOpenExact` | xtask/src/registry_status.rs:44-53 | a stage requires action if and only if the first one with its key has any status but passed |
| `PublishProtocol.ReviewComesNext` | xtask/src/registry_status.rs:3-32 | after the first approvable read the review is reported next if and only if it is confirmed and such a stage; otherwise only the approval can follow |
| `PublishProtocol.StagesSafe` | xtask/src/validation_runner.rs:23-73 | the second report says failed if and only if some command fails |
| `PublishProtocol.OffersExact` | xtask/src/registry_status.rs:56-64 | an action is offered wherever it stands in the list and in whatever case |
| `PublishProtocol.Decide` | xtask/src/registry_publish_lifecycle.rs:110-180 | approval and the poll after it, from an approvable status on |
| `PublishProtocol.OverrideExact` | xtask/src/registry_publish_lifecycle.rs:117-155 | without a review the approval follows the first approvable read if and only if no override is required or both fields are filled in |
| `PublishProtocol.ReviewedApproval` | xtask/src/registry_publish_lifecycle.rs:117-155 | after a review it follows if and only if the new read is accepted, not rejected, and requires no override that is not filled in |
| `PublishProtocol.Publish` | xtask/src/registry_publish_lifecycle.rs:13-181 | the call computes the session with the given server, and that session is proper |
| `PublishProtocol.PublishProper` | xtask/src/registry_publish_lifecycle.rs:13-181 | for every server: at most one approval and only when allowed, nothing after a rejected read or failed request, every failure explained by the last exchange |
| `PublishProtocol.ApprovesReadyExactly` | xtask/src/registry_publish_lifecycle.rs:117-155 | against every server each approval follows a newest read that is approved and offers it, if and only if automatic approval and the confirmation of the review are not used together |
| `PublishProtocol.ApprovesUnready` | xtask/src/registry_publish_lifecycle.rs:117-155 | a server for which the approval follows a read that is neither approved nor offers it |
| `PublishProtocol.UnpublishedExactly` | xtask/src/registry_publish_lifecycle.rs:156-180 | a session with automatic approval succeeds without the release being published if and only if its approval went through and the server's next ten answers neither publish nor reject it, the tenth accepted |
| `PublishProtocol.SucceedsUnpublished` | xtask/src/registry_publish_lifecycle.rs:168-180 | a server for which that happens |
| `ReviewLedger.LedgerStore.constructor` | scripts/maintenance/review_orchestrator.py:192-206 | a saved ledger, or a fresh one |
| `ReviewLedger.LedgerStore.SyncLedger` | scripts/maintenance/review_orchestrator.py:209-271 | prune, refresh, add, and roll the round over when all is done |
| `ReviewLedger.LedgerStore.MarkComponentDone` | scripts/maintenance/review_orchestrator.py:355-381 | sync, tick the first component that answers, sync again |
| `ReviewRounds.RunKeeps` | scripts/maintenance/review_orchestrator.py:209-271 | after any sequence of operations rounds are archived without gaps, something is pending, and the stored components are the discovered ones with their category, files and lines |
| `ReviewRounds.SyncProgress` | scripts/maintenance/review_orchestrator.py:217-239 | a synchronization that ends no round keeps what was marked and noted, and what it adds is pending |
| `ReviewRounds.MarkRecords` | scripts/maintenance/review_orchestrator.py:355-381 | a mark that ends no round completes one component with the notes given or the standard ones and changes nothing else |
| `ReviewRounds.TargetOfPath` | scripts/maintenance/review_orchestrator.py:360-364 | a path is answered by its own component if and only if no earlier one is named like it |
| `ReviewRounds.MarkSettled` | scripts/maintenance/review_orchestrator.py:355-379 | on an unchanged disk a mark ticks one component and rolls over when it was the last |
| `ReviewRounds.PartialRound` | scripts/maintenance/review_orchestrator.py:241-261 | until every component is marked the round goes on with exactly the marked ones done |
| `ReviewRounds.RoundAdvances` | scripts/maintenance/review_orchestrator.py:355-381 | marking each component once by path, in any order, ends exactly one round if no path is captured, with its number, components and lines archived and all reset, and none otherwise |
| `ReviewRounds.CapturedNeverEnds` | scripts/maintenance/review_orchestrator.py:355-381 | with a captured path no sequence of marks by path, of any length, ends the round |
| `ReviewRounds.OnlyRootsCaptured` | scripts/maintenance/review_orchestrator.py:144-189 | among discovered components a path is captured if and only if it is `crates` or `apps` itself and a component in a directory of that name is stored before it |
| `ReviewRounds.RunDiscovered` | scripts/maintenance/review_orchestrator.py:144-239 | every reachable ledger holds discovered components only |
| `ReviewRounds.RoundAdvancesOnDisk` | scripts/maintenance/review_orchestrator.py:355-381 | with no package at `crates` or `apps` itself, marking each component once by path always ends exactly one round |
| `ReviewRounds.CaptureExample` | scripts/maintenance/review_orchestrator.py:144-189 | two components that can be found on disk, in `crates/x/apps` and in `apps`, and start a round that cannot be finished by paths |
| `FeatureClosure.DefaultsExactlyClosed` | xtask/src/server_feature_contracts.rs:57-134 | the one-edge check accepts if and only if no required module is listed and every chain of optional dependencies is enabled with its features |
| `FeatureClosure.StepIsDependency` | xtask/src/server_contracts.rs:73-86 | an accepted feature graph has a step between module features exactly for a dependency with a feature |
| `FeatureClosure.ChainsAgree` | xtask/src/server_contracts.rs:73-116 | chains of module features are chains of featured dependencies |
| `FeatureClosure.CratesLinked` | xtask/src/server_contracts.rs:61-71 | enabling a module links its crate and that of every featured module it depends on through featured ones, unless that one is capability-only |
| `FeatureClosure.AlwaysLinked` | xtask/src/server_contracts.rs:15-71 | a capability-only module may name no dependency, an ordinary one may not, an extension needs no feature |
| `FeatureClosure.EnabledExact` | xtask/src/server_feature_contracts.rs:78-82 | a slug is enabled if and only if it is listed, up to white space around it |
| `FeatureClosure.DetourFreeIsExact` | xtask/src/server_contracts.rs:73-116 | it is enough that each graph bypasses its own detours |
| `FeatureClosure.ExactIffDetoursAgree` | xtask/src/server_contracts.rs:73-116 | enabling a feature enables exactly the features of the transitive dependencies if and only if every detour of either graph leads where the other graph leads |
| `FeatureClosure.SideDoor` | xtask/src/server_contracts.rs:61-86 | a manifest that passes every feature check in which another feature enables a module that nothing depends on |
| `FeatureClosure.RequiredBridge` | xtask/src/server_contracts.rs:61-116 | a manifest that passes every feature check in which a transitive dependency is not enabled |
| `GraphPaths.Carried` | xtask/src/server_contracts.rs:73-116 | if single steps and detours between marked nodes are answered in another graph, so is every path between marked nodes |
| `GraphPaths.StayOnExactly` | xtask/src/server_contracts.rs:73-86 | marked nodes reach each other over marked nodes if and only if every detour is bypassed |

## Left out

- The domain crates, the web applications and everything else outside the files cited above.
- `extract_use_statements` in the architecture guard, which cuts statements out of a file line by line with a regular expression: the flattener starts from a statement's text.
- The CLI, backup and monitoring binaries of the revision crate, and its SQL access: only the query results are modelled.
- 64-bit limits: revision numbers, rounds and counts are unbounded integers.
- Database errors: a write that fails is a call that stops before its write (`RevisionRace.Abandon`); the sequential service does not return them.
- The parser that produces Markdown events, JSON parsing and printing, HTTP, Git and Cargo processes: their results are inputs.
- Windows-specific branches of the snapshot code (reparse points, modes taken from the index).
- Non-ASCII white space at the end of a `git cat-file` header, which the code would trim and Git never writes.
- The outcome of each check inside `verify_fresh` is arbitrary in `FreshEvidence`; snapshot validation itself is in `SnapshotTree`.
- Liveness: no fairness is assumed, so `RemoteRunner.CanReturn` says that a return stays reachable, not that every schedule reaches it.
- RevisionHistory.RunDistinct: requires the create operation to be used on empty keys, as the create event means; `RevisionHistory.CreateDistinctExactly` gives the exact condition without it.
- The manual checks around `validate_module_server_registry_contract` that search Rust text for registrations.
