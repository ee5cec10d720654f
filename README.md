# UsefulStorageScripts, modelled in Dafny

This project models the storage scripts of the KIT CMS group: four tools that maintain files
on a dCache storage element (dCMS), and one that prepares CROWN ntuples for merging.

- **Chimera-dump translation** (`translate_chimera_dump_to_csv.py`) turns a dump of the
  dCache namespace into CSV rows `lfnpath;pnfsid;checksum;size;timestamp;uri;user`. It keeps
  a current `/pnfs` directory, filters directories by include and exclude paths (a more
  specific include overrides an exclude), drops malformed and non-adler32 lines, strips a
  prefix, attributes each file to the user of its `/store/user/<name>/` segment, and counts
  every line in exactly one of six counters.
- **CSV analysis** (`analyze_chimera_csv.py`) reads such CSVs chunk by chunk. `space-usage`
  counts and sums the sizes of matching rows. `user-summary` adds up bytes per user and sorts
  the users by size. `extract-paths` writes the matching paths to one text file, or to one
  text file per CSV.
- **Bulk removal and copy** (`remove_files.py`, `copy_files.py`, `copy_test_files.py`)
  queue one task per file and let a worker run `gfal-rm` or `gfal-copy` for each. A removal
  is retried until the command reports success (0) or a missing file (2). A copy is retried
  until it succeeds, with a compensating `gfal-rm` of the target after every failed attempt.
  The test variant cycles round-robin over the file list and gives each copy a fresh name.
- **Ntuple merging** (`merge_crown_ntuples_and_friends.py`) classifies each file of a list
  into a job and a file type: an ntuple, or a friend tree. It groups the files, checks that
  the entry counts agree across file types, and names the merged output of each job.

The modules follow the scripts:

- `ChimeraFilter` and `ChimeraTranslate` model the translator.
- `ChimeraCsv` models the analysis tool.
- `Transfer` holds the shared worker and retry logic. `RemoveFiles`, `CopyFiles` and
  `CopyTestFiles` hold each script's own paths, commands and task production.
- `MergeNtuples` models the merging script.

Below them:

- `Text` models Python's `str` operations: `strip`, `lstrip`, `rstrip`, `split`, `replace`,
  `lower` on ASCII letters, `in` and `int()`.
- `Paths` models `os.path` and `PurePosixPath`: `commonpath`, `relpath`, `split`, `splitext`,
  `join` and path components.
- `Dicts` models an insertion-ordered `dict`.
- `Queues` models `asyncio.Queue` as a class with `put_nowait`, `get` and `task_done`.
- `Wrappers` holds `Option` and `Result`.

Loops that update state in the scripts are methods with loop invariants. Each one is proved
equal to a specification function, and the properties of the scripts are proved about those
functions as lemmas.

External effects are parameters:

- The exit codes of the spawned commands, and a cancellation arriving while a command runs,
  are a sequence of `Outcome`s.
- The fresh names from `uuid4()` are a sequence of identifiers.
- The contents of the input files are sequences of lines, or chunks of rows.
- The entry count of each ROOT file is a function `entries`.
- The files on disk written by `extract-paths` are a map from path to text.

## Model

| member | source | states |
|---|---|---|
| ChimeraFilter.SubpathReflexive | dCMS_usage_scripts/translate_chimera_dump_to_csv.py:50-64 | every path is a subpath of itself |
| ChimeraFilter.SubpathIsComponentWise | dCMS_usage_scripts/translate_chimera_dump_to_csv.py:50-64 | `/a/bc` is not below `/a/b`, although `/a/b` is a string prefix of it: the test compares whole components |
| ChimeraFilter.SubpathIsTextPrefix | dCMS_usage_scripts/translate_chimera_dump_to_csv.py:50-64 | for normalised paths, `child` is below `parent` iff it equals `parent` or starts with `parent + "/"` |
| ChimeraFilter.SubpathGivesTextPrefix | dCMS_usage_scripts/translate_chimera_dump_to_csv.py:50-64 | a normalised subpath equals its parent or continues it after a slash |
| ChimeraFilter.TextPrefixIsSubpath | dCMS_usage_scripts/translate_chimera_dump_to_csv.py:50-64 | a path that continues a normalised parent after a slash is below it |
| ChimeraFilter.SearchFrom | dCMS_usage_scripts/translate_chimera_dump_to_csv.py:44-82 | `re.search` of `/store/user/([^/]+)/`: the result is the leftmost index at or after `from` where the pattern matches; `None` iff it matches nowhere |
| ChimeraFilter.ExtractUser | dCMS_usage_scripts/translate_chimera_dump_to_csv.py:67-89 | the user is the default, or a non-empty name without `/` that is not `rucio` in any case |
| ChimeraFilter.ExtractUserLeftmost | dCMS_usage_scripts/translate_chimera_dump_to_csv.py:81-89 | without a match the default is returned; otherwise the name captured at the leftmost match, or the default when it lower-cases to `rucio` |
| ChimeraFilter.ExtractUserLeading | dCMS_usage_scripts/translate_chimera_dump_to_csv.py:81-89 | a path `/store/user/<name>/...` yields `<name>`, or the default when `<name>` is `rucio` |
| ChimeraFilter.ExtractUserNoMarker | dCMS_usage_scripts/translate_chimera_dump_to_csv.py:83-89 | a path without `/store/user/` yields the default user |
| ChimeraFilter.RucioIsDefault | dCMS_usage_scripts/translate_chimera_dump_to_csv.py:85-87 | the central `Rucio` area is attributed to the default user, whatever its case |
| ChimeraFilter.UserHasNoSlash | dCMS_usage_scripts/translate_chimera_dump_to_csv.py:44-89 | with a slash-free default, the user column never holds a `/` |
| ChimeraFilter.OverridingIncludes | dCMS_usage_scripts/translate_chimera_dump_to_csv.py:107-110 | an include is listed iff it is one of the includes, differs from the exclude and lies below it |
| ChimeraFilter.OverridingCount | dCMS_usage_scripts/translate_chimera_dump_to_csv.py:107-110 | each overriding include is kept as often as it is listed, and every other path is dropped |
| ChimeraFilter.OverridingAppend | dCMS_usage_scripts/translate_chimera_dump_to_csv.py:107-110 | the filter of a concatenation is the concatenation of the filters, so the order of the includes is kept |
| ChimeraFilter.ComputeIncludeOverrides | dCMS_usage_scripts/translate_chimera_dump_to_csv.py:92-111 | the keys are exactly the exclude paths, and each value is that exclude's overriding includes |
| ChimeraFilter.OverridesDrawnFromIncludes | dCMS_usage_scripts/translate_chimera_dump_to_csv.py:105-111 | every overriding include in the table is an include, differs from its exclude and lies below it |
| ChimeraFilter.MatchingPaths | dCMS_usage_scripts/translate_chimera_dump_to_csv.py:141-144 | the comprehension keeps exactly the listed paths that are substrings of the path |
| ChimeraFilter.SavedByInclude | dCMS_usage_scripts/translate_chimera_dump_to_csv.py:150-157 | the loop over matching excludes sets `saved_by_include` iff some matching exclude has an overriding include inside the path |
| ChimeraFilter.ShouldProcessIff | dCMS_usage_scripts/translate_chimera_dump_to_csv.py:114-166 | a path is processed iff every matching exclude is outweighed by some matching exclude saved by an overriding include, and an include list, when given, has a member inside the path |
| ChimeraFilter.NoFiltersAcceptAll | dCMS_usage_scripts/translate_chimera_dump_to_csv.py:141-166 | with no includes and no excludes every path is processed |
| ChimeraFilter.IncludesDecide | dCMS_usage_scripts/translate_chimera_dump_to_csv.py:141-166 | with no matching exclude, a non-empty include list accepts a path iff one of the includes is inside it |
| ChimeraFilter.UnsavedExcludeRejects | dCMS_usage_scripts/translate_chimera_dump_to_csv.py:147-160 | a path holding an exclude, where no matching exclude is saved by an overriding include, is rejected |
| ChimeraFilter.SavedIsAccepted | dCMS_usage_scripts/translate_chimera_dump_to_csv.py:147-166 | a path saved by an overriding include is accepted, since that include is itself one of the includes |
| ChimeraFilter.ExcludeExceptInclude | dCMS_usage_scripts/translate_chimera_dump_to_csv.py:128-129 | `--exclude A --include B` with `B` below `A`: a path inside `A` is processed iff it holds `B` |
| ChimeraTranslate.RemovePrefix | dCMS_usage_scripts/translate_chimera_dump_to_csv.py:256-260 | a prefix at the start is cut off once; an empty prefix or one that does not occur leaves the path unchanged |
| ChimeraTranslate.ReplaceAbsentIfMissing | dCMS_usage_scripts/translate_chimera_dump_to_csv.py:259-260 | removing every occurrence of a prefix that does not occur changes nothing |
| ChimeraTranslate.ClassifyFileLine | dCMS_usage_scripts/translate_chimera_dump_to_csv.py:233-266 | a file line under a directory is skipped by the include or exclude filter, malformed, a bad checksum, or a row |
| ChimeraTranslate.ClassifyEntry | dCMS_usage_scripts/translate_chimera_dump_to_csv.py:241-266 | a file line of an accepted directory is malformed, a bad checksum, or a row |
| ChimeraTranslate.ClassifyMeaning | dCMS_usage_scripts/translate_chimera_dump_to_csv.py:215-266 | the conjunction of ClassifyRow, ClassifyMarker and ClassifySkips |
| ChimeraTranslate.ClassifyRow | dCMS_usage_scripts/translate_chimera_dump_to_csv.py:219-266 | a line is written iff it is non-blank, not a marker, a directory was seen, the directory passes the filter, and it has at least 5 fields whose third has length 8; the row is the entry text of that directory and those fields |
| ChimeraTranslate.ClassifyMarker | dCMS_usage_scripts/translate_chimera_dump_to_csv.py:219-231 | a line is a directory marker iff its stripped text starts with `/pnfs`, and then it becomes the directory; before any marker a non-marker line is blank or skipped |
| ChimeraTranslate.ClassifySkips | dCMS_usage_scripts/translate_chimera_dump_to_csv.py:234-239 | an include skip means no include is inside the directory; an exclude skip means an exclude matches and none of the matching excludes is saved |
| ChimeraTranslate.RejectedDirectory | dCMS_usage_scripts/translate_chimera_dump_to_csv.py:234-239 | the same two skip meanings, for a file line under a given directory |
| ChimeraTranslate.EntryRowFields | dCMS_usage_scripts/translate_chimera_dump_to_csv.py:253-266 | without a prefix the row is `dir/` and the `;`-joined fields, then `;user` and a newline; split at `;` it gives the directory-joined first field, the other fields and the user |
| ChimeraTranslate.SplitRow | dCMS_usage_scripts/translate_chimera_dump_to_csv.py:253-266 | splitting a `;`-joined row with the user appended gives back the parts and the user |
| ChimeraTranslate.ApplyCounts | dCMS_usage_scripts/translate_chimera_dump_to_csv.py:216-267 | a verdict adds one processed line, moves exactly one of the five other counters, appends at most one row, and changes the directory only on a marker |
| ChimeraTranslate.StepCounts | dCMS_usage_scripts/translate_chimera_dump_to_csv.py:215-267 | one line is counted once, writes at most one row, and moves the directory exactly when it is a marker |
| ChimeraTranslate.TranslateSnoc | dCMS_usage_scripts/translate_chimera_dump_to_csv.py:210-267 | translating one more line is one more step |
| ChimeraTranslate.TranslateNext | dCMS_usage_scripts/translate_chimera_dump_to_csv.py:210-267 | the state after a file's line j + 1 is one step from the state after line j |
| ChimeraTranslate.LastMarker | dCMS_usage_scripts/translate_chimera_dump_to_csv.py:224-227 | the last line whose stripped text starts with `/pnfs`, if any |
| ChimeraTranslate.ClassifyLine | dCMS_usage_scripts/translate_chimera_dump_to_csv.py:217-266 | the loop body's branches, in the script's order, give the verdict of the specification function |
| ChimeraTranslate.ClassifyFileEntry | dCMS_usage_scripts/translate_chimera_dump_to_csv.py:241-266 | the field checks and row building give the verdict of the specification function |
| ChimeraTranslate.ProcessChimeraDump | dCMS_usage_scripts/translate_chimera_dump_to_csv.py:196-278 | the nested loop over files and lines ends in the state of translating all lines in order, header included |
| ChimeraTranslate.CountersPartition | dCMS_usage_scripts/translate_chimera_dump_to_csv.py:203-267 | lines processed equals the number of lines, and it is the sum of written and the four skip counters, so written never exceeds processed |
| ChimeraTranslate.OutputShape | dCMS_usage_scripts/translate_chimera_dump_to_csv.py:196-266 | the output holds one row per written line, after the header, which is written once iff asked for |
| ChimeraTranslate.DirectoryIsLastMarker | dCMS_usage_scripts/translate_chimera_dump_to_csv.py:224-227 | the current directory is always the last marker line seen |
| ChimeraTranslate.NoMarkerNoRows | dCMS_usage_scripts/translate_chimera_dump_to_csv.py:229-231 | without any marker nothing is written and every line counts as skipped-other |
| ChimeraTranslate.FileBoundariesIrrelevant | dCMS_usage_scripts/translate_chimera_dump_to_csv.py:210-215 | translating two files gives the same state as translating their concatenation: the directory carries over |
| ChimeraTranslate.Concat | dCMS_usage_scripts/translate_chimera_dump_to_csv.py:210-215 | a single input file is translated line by line as it is |
| Transfer.FileList | remove_files.py:150 | one entry per line: the first comma-separated field of the stripped line |
| Transfer.FileListEntries | copy_files.py:201 | an entry holds no comma and is a prefix of the stripped line; it is empty iff the stripped line is empty or starts with a comma |
| Transfer.RemoveAttempts | remove_files.py:28-44 | `retcode` starts at 1, so at least one removal is attempted, and no more outcomes are used than given |
| Transfer.RemoveAttemptsSpec | remove_files.py:28-48 | every attempt runs the same command; all attempts but the last got a code other than 0 and 2; the loop ends exactly at the first 0 or 2, or at a cancellation, or runs out of outcomes |
| Transfer.RemoveAttemptCount | remove_files.py:32-44 | when the first stopping outcome is at index k, there are exactly k + 1 attempts |
| Transfer.CopyAttempts | copy_files.py:28-71 | at least one copy is attempted, and no more outcomes are used than given |
| Transfer.CopyAttemptsSpec | copy_files.py:28-77 | the commands alternate copy and remove; every copy but the last failed and every removal before the end exited; the loop finishes only on a copy's exit code 0, cancels on an interrupted copy, crashes on an interrupted removal, or runs out of outcomes |
| Transfer.CopyCommandsAlternate | copy_files.py:29-57 | the commands alternate copy, remove, copy, ...: exactly one compensating `gfal-rm` after each failed copy |
| Transfer.CopyFailuresBefore | copy_files.py:49-50 | every copy before the last one got a non-zero exit code |
| Transfer.CopyEnds | copy_files.py:31-77 | the loop finishes only on a copy (an even attempt) with exit code 0; a cancellation during a copy cancels the task; one during the compensating removal crashes the worker; otherwise the outcomes ran out |
| Transfer.CopyRemovalsBefore | copy_files.py:62-71 | every compensating removal before the last command ran to an exit code |
| Transfer.CopyStopsAt | copy_files.py:31-77 | conversely, when the copies fail and the removals exit up to outcome j, and outcome j stops the loop, exactly j + 1 commands run and the end is the one outcome j calls for |
| Transfer.RemoveCodeIrrelevant | copy_files.py:62-71 | the exit code of the compensating removal does not change the commands or the end |
| Transfer.Attempt | copy_files.py:28-77 | both retry policies attempt at least once and use no more outcomes than given |
| Transfer.RetryRemoval | remove_files.py:28-48 | the `while retcode and retcode != 2` loop issues the attempts of the specification function |
| Transfer.RetryCopy | copy_files.py:28-77 | the `while retcode` loop with its compensating removals issues the attempts of the specification function |
| Transfer.RunPolicy | remove_files.py:30-48 | runs the task's retry policy as the specification function does |
| Transfer.Jobs | remove_files.py:24-53 | one job per queued task, in queue order |
| Transfer.Drain | remove_files.py:15-53 | a worker never marks more tasks done than it took, nor takes more than were queued |
| Transfer.ActiveAll | remove_files.py:24-53 | every task is run iff no entry is skipped |
| Transfer.DrainSpec | remove_files.py:15-53 | a worker that empties the queue took every task and marked done exactly the non-blank ones; a worker stopped by a task took it, and the task it stopped on is not marked done |
| Transfer.JoinNeedsNoSkips | remove_files.py:24-78 | after the queue is emptied, `join()` can return (no unfinished task) iff no entry was blank |
| Transfer.Successes | copy_files.py:31-49 | the outcome sequence in which every command succeeds at once |
| Transfer.DrainAllSucceed | remove_files.py:15-53 | when every command succeeds at once and no entry is blank, the worker issues each task's first command in queue order and marks every task done |
| Transfer.Serve | remove_files.py:18-53 | one iteration of the worker loop takes the head task, runs its job, and calls `task_done` iff the job ran and finished |
| Transfer.WorkerStep | remove_files.py:18-53 | a skipped task is taken without a command; a finished task is marked done; a cancelled task or a crash ends the run at that task |
| Transfer.ExecuteWorker | remove_files.py:10-53 | the worker's loop over the queue produces the run of the specification function, leaves the untaken tasks queued, and lowers the unfinished count by the tasks marked done |
| Queues.TaskQueue.constructor | remove_files.py:59 | a new queue is empty, with no unfinished task |
| Queues.TaskQueue.PutNowait | remove_files.py:63 | appends the item and counts one more unfinished task |
| Queues.TaskQueue.Get | remove_files.py:18 | removes and returns the head item, leaving the unfinished count unchanged |
| Queues.TaskQueue.TaskDone | remove_files.py:51 | counts one task less as unfinished |
| Dicts.Store | merge_crown_ntuples_and_friends.py:91-97 | storing updates the value and appends a new key at the end, keeping insertion order |
| Dicts.DistinctSpec | merge_crown_ntuples_and_friends.py:88-97 | the keys in first-insertion order: each key once, and every key present |
| RemoveFiles.RemoveTargetJunction | remove_files.py:27 | exactly one slash joins the trimmed prefix and the name: the prefix loses only trailing slashes and the name only leading ones |
| RemoveFiles.RemoveTargetPlain | remove_files.py:27 | without slashes at the junction the target is `prefix + "/" + lfn` |
| RemoveFiles.RemoveTargetSlashes | remove_files.py:27 | extra slashes on either side of the junction do not change the target |
| RemoveFiles.RemoveCommandWords | remove_files.py:13-29 | the command is `gfal-rm --dry-run <target>`, or has an empty option word; different targets give different commands |
| RemoveFiles.RemovalTasks | remove_files.py:61-63 | one `(f, storage_prefix)` task per list entry, in list order |
| RemoveFiles.EnqueueRemovals | remove_files.py:59-63 | the enqueue loop leaves exactly those tasks queued, all unfinished |
| RemoveFiles.ExecuteRemove | remove_files.py:10-53 | `execute_remove` with one worker behaves as the worker specification over the removal jobs |
| RemoveFiles.RemoveFilesMain | remove_files.py:56-89 | the list is queued and drained; `join()` returns iff the worker emptied the queue and no entry was blank |
| RemoveFiles.JoinedIffNoBlank | remove_files.py:24-78 | no task stays unfinished iff the queue was emptied and no entry was blank |
| RemoveFiles.RemovalsInListOrder | remove_files.py:15-63 | when every removal succeeds at once and no entry is blank, one `gfal-rm` per entry is issued, in list order, and every task is marked done |
| CopyFiles.CopyTargetSwapsDirectory | copy_files.py:27 | with one occurrence of the old directory, the target is the output prefix, the part before it, the new directory and the rest |
| CopyFiles.CopyTargetUnchanged | copy_files.py:27 | a name without the old directory, or an unchanged directory, keeps its path below the output prefix |
| CopyFiles.CopyCommandWords | copy_files.py:14-29 | the command is `gfal-copy --dry-run --force <in> <target> --checksum-mode both`, or has an empty option word |
| CopyFiles.CopyTasks | copy_files.py:90-92 | one task per list entry, in list order, with both prefixes and both directories |
| CopyFiles.EnqueueCopies | copy_files.py:88-92 | the enqueue loop leaves exactly those tasks queued, all unfinished |
| CopyFiles.ExecuteCopy | copy_files.py:11-82 | `execute_copy` with one worker behaves as the worker specification over the copy jobs |
| CopyFiles.CopyFilesMain | copy_files.py:85-118 | the list is queued and drained; `join()` returns iff the worker emptied the queue and no entry was blank |
| CopyFiles.CopyJoinedIffNoBlank | copy_files.py:26-107 | no task stays unfinished iff the queue was emptied and no entry was blank |
| CopyFiles.CopiesInListOrder | copy_files.py:16-92 | when every copy succeeds at once and no entry is blank, one `gfal-copy` per entry is issued, in list order, and no removal |
| CopyTestFiles.TestInputKeepsPrefix | copy_test_files.py:23 | stripping the name's leading slashes keeps the join from discarding the input prefix |
| CopyTestFiles.TestTargetIgnoresSource | copy_test_files.py:31 | the target depends on neither the source name, the input prefix nor the old directory |
| CopyTestFiles.TestTargetEndsWithName | copy_test_files.py:31 | a relative new name ends the target |
| CopyTestFiles.TestTransfers | copy_test_files.py:79-84 | exactly `total_transfers` transfers |
| CopyTestFiles.RoundRobin | copy_test_files.py:78-80 | the first lap takes the list in order, and every later transfer repeats the source of the one a list length before it |
| CopyTestFiles.SourceAt | copy_test_files.py:78-80 | transfer i copies entry i mod the list length |
| CopyTestFiles.PeriodicAt | copy_test_files.py:78-80 | transfer i repeats the source of transfer i minus the list length |
| CopyTestFiles.ModNext | copy_test_files.py:78-80 | the cycle position after i is the next one, wrapping to 0 at the end of the list |
| CopyTestFiles.TestTransfersSnoc | copy_test_files.py:79-84 | one more iteration appends the transfer of the next cycle entry and the next fresh name |
| CopyTestFiles.FreshNames | copy_test_files.py:81 | every new name ends with the extension, and distinct fresh identifiers give distinct names |
| CopyTestFiles.ProduceTestTransfers | copy_test_files.py:76-84 | the production loop queues the round-robin transfers; with an empty list and a positive count, `next` raises before anything is queued |
| CopyTestFiles.ExecuteTestCopy | copy_test_files.py:13-70 | `execute_copy` with one worker behaves as the worker specification over the test copy jobs |
| MergeNtuples.ScriptDirectories | merge_crown_ntuples_and_friends.py:12-14 | the ntuples and friends roots are `CROWNRun` and `CROWNFriends` below the main directory |
| MergeNtuples.IsSubpathIff | merge_crown_ntuples_and_friends.py:27-32 | `commonpath([path, base]) == base` iff the base is normalised, both have the same kind (absolute or relative), and the base's components start the path's |
| MergeNtuples.IsSubpathNeedsNormalBase | merge_crown_ntuples_and_friends.py:29-30 | only a normalised base can equal a common path |
| MergeNtuples.IsSubpathReflexive | merge_crown_ntuples_and_friends.py:27-32 | a path is below itself iff it is normalised |
| MergeNtuples.FirstWordSpec | merge_crown_ntuples_and_friends.py:36 | `l.strip().split()[0]` is the first whitespace field of the stripped line, and fails iff the line is blank |
| MergeNtuples.FirstBlank | merge_crown_ntuples_and_friends.py:34-36 | the index of the first blank line: all lines before it have a first word |
| MergeNtuples.GetFiles | merge_crown_ntuples_and_friends.py:34-36 | the first word of every line, in order, or the index of the first blank line, where `[0]` raises |
| MergeNtuples.SplitOnce | merge_crown_ntuples_and_friends.py:47 | `split("/", 1)` yields two parts iff the text holds a slash, the first part without one |
| MergeNtuples.DetermineJob | merge_crown_ntuples_and_friends.py:39-50 | the third component is always the file; a file below the ntuples root is an ntuple; a file below neither root is `UNKNOWN`; only a friend without a sub-directory fails |
| MergeNtuples.NtupleJob | merge_crown_ntuples_and_friends.py:40-43 | a file below the ntuples root belongs to the directory of its relative path, as type `ntuples` |
| MergeNtuples.FriendJob | merge_crown_ntuples_and_friends.py:44-48 | a friend file is classified iff its relative path has at least three components: friend name, job directory, file |
| MergeNtuples.RelDirectory | merge_crown_ntuples_and_friends.py:41-46 | the directory part of `relpath(f, base)` is the components of `f` below the base, without the file name |
| MergeNtuples.RelPathBelow | merge_crown_ntuples_and_friends.py:41-45 | `relpath` of a file below the base is the join of its components below the base |
| MergeNtuples.SplitOnceOfDir | merge_crown_ntuples_and_friends.py:46-47 | the relative directory splits at its first slash iff there are at least three components |
| MergeNtuples.SplitOnceOfJoin | merge_crown_ntuples_and_friends.py:47 | `split("/", 1)` of joined clean components gives the first and the join of the rest iff there are at least two |
| MergeNtuples.ClassifyAllSpec | merge_crown_ntuples_and_friends.py:89-90 | classifying the list succeeds iff every file classifies, with the results in order; otherwise it fails on the first file that does not |
| MergeNtuples.GroupFiles | merge_crown_ntuples_and_friends.py:88-97 | the grouping loop gives the grouping of the specification function, or the first classification error |
| MergeNtuples.AddToGroup | merge_crown_ntuples_and_friends.py:91-97 | one iteration of the grouping loop gives the update of the specification function |
| MergeNtuples.AddFileShape | merge_crown_ntuples_and_friends.py:91-97 | a job key is appended on first sight and the job's entry is replaced by its updated file types |
| MergeNtuples.AddFileStep | merge_crown_ntuples_and_friends.py:89-97 | adding one file keeps the grouping equal to the grouping of all files so far |
| MergeNtuples.StepJobs | merge_crown_ntuples_and_friends.py:91-93 | a file adds its job to the keys iff the job is new |
| MergeNtuples.SameJobTypes | merge_crown_ntuples_and_friends.py:94-96 | a file adds its type to its job iff the type is merged and new there |
| MergeNtuples.SameJobFiles | merge_crown_ntuples_and_friends.py:94-97 | a file is appended to exactly its own type's list, and only if the type is merged |
| MergeNtuples.NewTypesKeys | merge_crown_ntuples_and_friends.py:94-96 | a file type is added to its job only if it is `ntuples` or an allowed friend, and only on first sight |
| MergeNtuples.NewTypesFiles | merge_crown_ntuples_and_friends.py:94-97 | the file is appended to its type's list only if the type is merged |
| MergeNtuples.GroupAllSpec | merge_crown_ntuples_and_friends.py:88-97 | the grouping has every job once, in order of first appearance; each job's merged types once, in order of first appearance; and each type's files in list order |
| MergeNtuples.GroupSpec | merge_crown_ntuples_and_friends.py:86-97 | grouping succeeds iff every file classifies, and then groups the classified files; otherwise it fails on the first unsplittable friend |
| MergeNtuples.CheckEventConsistency | merge_crown_ntuples_and_friends.py:52-68 | the two loops return whether all recorded counts agree for each key |
| MergeNtuples.LastWith | merge_crown_ntuples_and_friends.py:55-60 | the last file of a type with a given key, which is the one whose count is kept |
| MergeNtuples.RecordTypesAt | merge_crown_ntuples_and_friends.py:54-60 | the recorded count of a key and type is that of the type's last file with that key |
| MergeNtuples.RecordFilesAt | merge_crown_ntuples_and_friends.py:55-60 | recording a type's files sets a key's count of that type to the last file with that key, and leaves the rest |
| MergeNtuples.SingleValue | merge_crown_ntuples_and_friends.py:63 | `len(set(values)) == 1` iff all values are equal |
| MergeNtuples.ConsistencyIff | merge_crown_ntuples_and_friends.py:52-68 | the check passes iff, for each key, the last files with that key in every type have equal counts |
| MergeNtuples.AsWrittenAlwaysPasses | merge_crown_ntuples_and_friends.py:55-60 | keyed by the full file name, the check passes whatever the counts (see Findings) |
| MergeNtuples.AsWrittenMissesMismatch | merge_crown_ntuples_and_friends.py:55-67 | an ntuple and its friend with the same base name and different counts pass the check as written |
| MergeNtuples.MismatchDetected | merge_crown_ntuples_and_friends.py:62-67 | keyed by base name, two types whose files of one base name differ in count fail the check |
| MergeNtuples.AgreeingFilesPass | merge_crown_ntuples_and_friends.py:62-68 | keyed by base name, files of one base name with equal counts pass the check |
| MergeNtuples.MergedFileNameShape | merge_crown_ntuples_and_friends.py:72 | the output name is the job with every `/` replaced by `_`, then `_merged.root`; it holds no `/` |
| MergeNtuples.MergedFileNamesCollide | merge_crown_ntuples_and_friends.py:72 | jobs `a/b` and `a_b` write the same output file |
| MergeNtuples.MergeJob | merge_crown_ntuples_and_friends.py:70-83 | the output holds one column group per file type, in dictionary order, and fails iff there is no file type |
| MergeNtuples.MergeJobs | merge_crown_ntuples_and_friends.py:107-113 | with the check keyed by `key` (`FileName` as written, `Basename` corrected), jobs are merged in order until one fails the check (`exit(1)`) or has nothing to merge |
| MergeNtuples.AsWrittenMergesAll | merge_crown_ntuples_and_friends.py:107-113 | with the check keyed by the full file name, as written, no job stops the run with `exit(1)` (see Findings) |
| MergeNtuples.MergeMain | merge_crown_ntuples_and_friends.py:85-113 | the run stops on a blank line or an unsplittable friend path, and otherwise groups the files and merges the jobs in order, with the check keyed by `key` (`FileName` as written) |
| ChimeraCsv.SpaceUsage | dCMS_usage_scripts/analyze_chimera_csv.py:109-130 | the loops over chunks and rows return the number and the sum of the counted sizes |
| ChimeraCsv.CountChunk | dCMS_usage_scripts/analyze_chimera_csv.py:113-128 | one chunk adds its counted sizes to `count` and `total` |
| ChimeraCsv.SpaceUsageCounts | dCMS_usage_scripts/analyze_chimera_csv.py:113-128 | a row is counted iff its stripped path contains the pattern and its stripped size parses as an integer, and counted rows keep their order |
| ChimeraCsv.CollectStep | dCMS_usage_scripts/analyze_chimera_csv.py:123-128 | one row adds one to the count and its size to the total iff it is counted |
| ChimeraCsv.PicksExactly | dCMS_usage_scripts/analyze_chimera_csv.py:123-128 | the picked row indices are exactly those whose size is counted |
| ChimeraCsv.SkippedRowIgnored | dCMS_usage_scripts/analyze_chimera_csv.py:123-128 | a row that does not match or whose size does not parse changes neither count nor total |
| ChimeraCsv.DecimalSizesCounted | dCMS_usage_scripts/analyze_chimera_csv.py:113-128 | matching rows with decimal sizes are counted with exactly those sizes |
| ChimeraCsv.ProcessSpaceUsage | dCMS_usage_scripts/analyze_chimera_csv.py:93-130 | a missing file raises `FileNotFoundError`, an unreadable one fails, and otherwise the count and total of the counted sizes are returned |
| ChimeraCsv.SpaceUsageCommand | dCMS_usage_scripts/analyze_chimera_csv.py:267-295 | exit code 2 iff the file is missing, 3 iff reading fails, else 0 with the count and total |
| ChimeraCsv.ReadUInt64 | dCMS_usage_scripts/analyze_chimera_csv.py:170 | a size read as `np.uint64` lies in [0, 2^64) |
| ChimeraCsv.SortUsersSpec | dCMS_usage_scripts/analyze_chimera_csv.py:193 | `groupby` key order: the users sorted, a permutation of the input, without repeats when the input has none |
| ChimeraCsv.InsertUserSpec | dCMS_usage_scripts/analyze_chimera_csv.py:193 | inserting a user keeps the list ascending and adds exactly that user, without repeats when it was new |
| ChimeraCsv.UsersSpec | dCMS_usage_scripts/analyze_chimera_csv.py:193 | the groups of a chunk are its users, each once, in ascending order |
| ChimeraCsv.Tabulate | dCMS_usage_scripts/analyze_chimera_csv.py:193-196 | one `(user, total)` pair per group key, in key order |
| ChimeraCsv.UserSummary | dCMS_usage_scripts/analyze_chimera_csv.py:180-200 | the loop over chunks returns the summary of the specification function (without a header, the corrected reading of Findings), or the index of the first chunk that fails |
| ChimeraCsv.AddChunk | dCMS_usage_scripts/analyze_chimera_csv.py:195-196 | `user_sizes[user] = user_sizes.get(user, 0) + int(size)` for each group of a chunk |
| ChimeraCsv.AddGroupsSpec | dCMS_usage_scripts/analyze_chimera_csv.py:195-196 | after adding a chunk's groups a user is present iff it was or has a group, and its total grows by its groups' sum |
| ChimeraCsv.TotalsSpec | dCMS_usage_scripts/analyze_chimera_csv.py:180-196 | a user has a total iff it has a row, and the total is the sum of its per-chunk group sums (without a header, the corrected reading of Findings) |
| ChimeraCsv.FirstFailingSpec | dCMS_usage_scripts/analyze_chimera_csv.py:182-198 | no chunk is reported iff all are readable; otherwise the reported chunk fails and all before it are readable |
| ChimeraCsv.SummaryOkIff | dCMS_usage_scripts/analyze_chimera_csv.py:182-198 | the summary succeeds iff every chunk's sizes can be read, and otherwise names the first chunk that fails (without a header, each size read on its own, as corrected) |
| ChimeraCsv.ChunksOkIff | dCMS_usage_scripts/analyze_chimera_csv.py:182-198 | every chunk can be read iff every row's size can, whatever the chunk boundaries (without a header, each size read on its own, as corrected) |
| ChimeraCsv.ChunkingIrrelevant | dCMS_usage_scripts/analyze_chimera_csv.py:193-196 | without 64-bit wrap within a chunk, the sum of per-chunk totals equals the user's total over all rows |
| ChimeraCsv.UserBytesNonNegative | dCMS_usage_scripts/analyze_chimera_csv.py:170-193 | with a header, every size is an unsigned 64-bit value, so a user's total is never negative |
| ChimeraCsv.UserBytesAppend | dCMS_usage_scripts/analyze_chimera_csv.py:193-196 | a user's total over two parts of a CSV is the sum of the totals of the parts |
| ChimeraCsv.ChunkTotalNoWrap | dCMS_usage_scripts/analyze_chimera_csv.py:170-193 | a chunk total that fits in 64 bits is the plain sum |
| ChimeraCsv.UserTotals | dCMS_usage_scripts/analyze_chimera_csv.py:180-200 | a user appears in the summary iff it has a row, with the sum of its sizes over all rows, whatever the chunk boundaries |
| ChimeraCsv.JoinedSizesMisread | dCMS_usage_scripts/analyze_chimera_csv.py:177-196 | as written without a header, sizes `x` and `y` of one user are read as the number `x` followed by `y`, not their sum (see Findings) |
| ChimeraCsv.JoinedTwo | dCMS_usage_scripts/analyze_chimera_csv.py:193-196 | as written, the string sum of two rows of one user is the concatenation of their sizes |
| ChimeraCsv.SummedTwo | dCMS_usage_scripts/analyze_chimera_csv.py:193-196 | the corrected total of two rows of one user is the sum of their sizes |
| ChimeraCsv.InsertBySizeSpec | dCMS_usage_scripts/analyze_chimera_csv.py:321 | inserting into a list sorted by non-increasing size keeps it sorted and adds exactly the one item |
| ChimeraCsv.SortBySizeSpec | dCMS_usage_scripts/analyze_chimera_csv.py:321 | `sort(key=size, reverse=True)`: sizes are non-increasing, the result is a permutation of the items, and the sort is stable: the items of each size keep their order |
| ChimeraCsv.InsertBySizeStable | dCMS_usage_scripts/analyze_chimera_csv.py:321 | inserting an item places it after every item of its size already in the sorted list |
| ChimeraCsv.SummaryResults | dCMS_usage_scripts/analyze_chimera_csv.py:319-321 | the sorted results are non-increasing, a permutation of the summary's items, hold a user iff it has a row, pair each user with its total, and list users of equal total in `user_sizes` insertion order |
| ChimeraCsv.UserColumnWidthSpec | dCMS_usage_scripts/analyze_chimera_csv.py:328-329 | the user column width is at least 4, covers every user name, and is 4 or the length of some user |
| ChimeraCsv.LJust | dCMS_usage_scripts/analyze_chimera_csv.py:338 | `ljust` pads to the width and keeps the text as prefix |
| ChimeraCsv.ReportColumns | dCMS_usage_scripts/analyze_chimera_csv.py:333-339 | one header line plus one line per result; every line has a tab right after the user column; the header starts with `User` and each line with its user |
| ChimeraCsv.ReportLine | dCMS_usage_scripts/analyze_chimera_csv.py:337-338 | a line pads the user to the width, so the tab follows the column and the line starts with the user |
| ChimeraCsv.UserSummaryCommand | dCMS_usage_scripts/analyze_chimera_csv.py:298-339 | exit code 2 iff the file is missing, 3 iff reading or summing fails, and otherwise 0 with the sorted results and their report lines (without a header, summing as corrected) |
| ChimeraCsv.ExtractedSpec | dCMS_usage_scripts/analyze_chimera_csv.py:249-261 | no written value is empty; with a pattern each contains it; each is a stripped cell; and every non-empty stripped cell that matches is written |
| ChimeraCsv.EmptyPatternKeepsAll | dCMS_usage_scripts/analyze_chimera_csv.py:249-258 | an empty pattern writes every non-empty stripped value, in order |
| ChimeraCsv.LinesSplit | dCMS_usage_scripts/analyze_chimera_csv.py:260-262 | the text written splits at newlines into the values, then an empty last line |
| ChimeraCsv.WriteLines | dCMS_usage_scripts/analyze_chimera_csv.py:260-262 | the write loop appends each value and a newline |
| ChimeraCsv.LinesAppend | dCMS_usage_scripts/analyze_chimera_csv.py:260-262 | writing two lists of values writes the first list, then the second |
| ChimeraCsv.LinesJoin | dCMS_usage_scripts/analyze_chimera_csv.py:260-262 | the text written is the values joined by newlines, ending with a newline |
| ChimeraCsv.ExtractPaths | dCMS_usage_scripts/analyze_chimera_csv.py:244-264 | the text written is the extracted values, one per line, and the count returned is their number |
| ChimeraCsv.ExtractFile | dCMS_usage_scripts/analyze_chimera_csv.py:232-264 | a missing CSV raises before the output is opened; otherwise the output is emptied unless appending, then gets the lines of every chunk read, and a read error fails after the lines of the chunks before it are written |
| ChimeraCsv.ReadErrorKeepsPartialLines | dCMS_usage_scripts/analyze_chimera_csv.py:247-401 | a CSV that fails after some chunks leaves their lines in its output, and without `--continue-on-error` stops the loop with those files and the total so far |
| ChimeraCsv.ExtractAllStopped | dCMS_usage_scripts/analyze_chimera_csv.py:398-401 | once a failure stops the loop, later inputs change nothing |
| ChimeraCsv.ExtractAllNext | dCMS_usage_scripts/analyze_chimera_csv.py:381-401 | one more input extracts its CSV into the planned output: its count is added, or a failure stops the loop unless `--continue-on-error` |
| ChimeraCsv.ExtractAllStep | dCMS_usage_scripts/analyze_chimera_csv.py:381-401 | a readable input writes its extracted lines into its output, opened for appending or emptied, and adds their number to the total |
| ChimeraCsv.ExtractChunks | dCMS_usage_scripts/analyze_chimera_csv.py:232-264 | extracting a readable CSV writes its extracted lines into the output and returns their number |
| ChimeraCsv.ExtractCommand | dCMS_usage_scripts/analyze_chimera_csv.py:359-408 | exit code 2 iff no input, 3 iff a failure stopped the loop without `--continue-on-error`, otherwise 0 with the total written |
| ChimeraCsv.SingleOutputCollects | dCMS_usage_scripts/analyze_chimera_csv.py:373-375 | with `-o`, the first input overwrites and the later ones append: the output holds every input's lines in order, and no other file changes |
| ChimeraCsv.SeparateOutputs | dCMS_usage_scripts/analyze_chimera_csv.py:376-379 | without `-o`, each CSV's lines end up in its stem plus `.txt`, when the stems differ |
| ChimeraCsv.SeparatePrefix | dCMS_usage_scripts/analyze_chimera_csv.py:376-379 | without `-o`, after any number of inputs, each earlier CSV's output holds its own lines |
| ChimeraCsv.SeparateLast | dCMS_usage_scripts/analyze_chimera_csv.py:376-379 | without `-o`, a readable input sets its own `.txt` file and no other |
| ChimeraCsv.StemsDiffer | dCMS_usage_scripts/analyze_chimera_csv.py:378 | different stems give different `.txt` names |
| ChimeraCsv.AllReadable | dCMS_usage_scripts/analyze_chimera_csv.py:381-401 | when every input can be read, the loop is never stopped |
| Text.TrimStart | remove_files.py:27 | `lstrip` drops only leading characters of the set, and what remains does not start with one |
| Text.TrimEnd | remove_files.py:27 | `rstrip` drops only trailing characters of the set, and what remains does not end with one |
| Text.Strip | remove_files.py:150 | `strip()` leaves no whitespace at either end, and is empty iff the line is all whitespace |
| Text.FirstField | remove_files.py:150 | `split(",")[0]` is a comma-free prefix, the whole text when it has no comma |
| Text.Split | merge_crown_ntuples_and_friends.py:47 | `split(sep)` yields at least one part, none holding the separator, and joining them gives back the text |
| Text.Fields | merge_crown_ntuples_and_friends.py:36 | `split()` yields non-empty words without whitespace |
| Text.IndexOf | merge_crown_ntuples_and_friends.py:47 | the index of the first occurrence of a character, or the length when it does not occur |
| Text.SplitJoin | dCMS_usage_scripts/translate_chimera_dump_to_csv.py:253 | splitting a join of separator-free parts gives back the parts |
| Text.ContainsIff | dCMS_usage_scripts/translate_chimera_dump_to_csv.py:141 | `sub in s` iff `sub` occurs at some index of `s` |
| Text.ReplaceAbsent | copy_files.py:27 | `replace` of a pattern that does not occur changes nothing |
| Text.ReplaceHead | copy_files.py:27 | an occurrence at the start is replaced, and the rest is processed after it |
| Text.ReplaceKeeps | copy_files.py:27 | text before the first occurrence is copied unchanged |
| Text.ReplaceSelf | copy_files.py:27 | replacing a pattern by itself changes nothing |
| Text.ReplaceChar | merge_crown_ntuples_and_friends.py:72 | replacing one character by another maps each character and keeps the length |
| Text.ReplaceCharRemoves | merge_crown_ntuples_and_friends.py:72 | after replacing `a` by a different `b`, no `a` is left |
| Text.Lower | dCMS_usage_scripts/translate_chimera_dump_to_csv.py:86 | `lower()` restricted to ASCII: each character is mapped on its own, `A`-`Z` to `a`-`z`, so the length is kept |
| Text.ParseDecimal | dCMS_usage_scripts/analyze_chimera_csv.py:125 | `int()` reads back every decimal numeral as its value |
| Text.ParseDigits | dCMS_usage_scripts/analyze_chimera_csv.py:125 | `int()` of a string of digits is its decimal value |
| Text.ParseDigitsAppend | dCMS_usage_scripts/analyze_chimera_csv.py:177-196 | `int()` of two digit strings concatenated is the first value shifted by the second's length plus the second |
| Text.NatToString | dCMS_usage_scripts/analyze_chimera_csv.py:125 | a decimal numeral: non-empty and all digits |
| Text.DigitsValueOfDecimal | dCMS_usage_scripts/analyze_chimera_csv.py:125 | the numeral of n has the value n |
| Text.StrLeTotal | dCMS_usage_scripts/analyze_chimera_csv.py:193 | string order is total |
| Text.StrLeTrans | dCMS_usage_scripts/analyze_chimera_csv.py:193 | string order is transitive |
| Paths.Components | dCMS_usage_scripts/translate_chimera_dump_to_csv.py:61 | the parts of a path hold no empty part, `.` or slash |
| Paths.DropEmpty | dCMS_usage_scripts/translate_chimera_dump_to_csv.py:61 | dropping empty and `.` parts leaves clean components, and keeps clean ones as they are |
| Paths.CommonPrefix | merge_crown_ntuples_and_friends.py:29 | the longest common prefix of two component lists |
| Paths.ComponentsOfRender | merge_crown_ntuples_and_friends.py:29 | writing clean components back as a path and splitting it again gives them back, with the same kind of path |
| Paths.CommonPathIsBase | merge_crown_ntuples_and_friends.py:29-30 | for a normalised base, `commonpath` is the base iff the path has the same kind and the base's components start its own |
| Paths.PathSplitOfJoin | merge_crown_ntuples_and_friends.py:42-46 | `os.path.split` of joined components yields the join of all but the last, and the last |
| Paths.PathSplitAt | merge_crown_ntuples_and_friends.py:42-46 | `os.path.split` of `x/y` with a slash-free tail is `(x, y)` |
| Paths.PathSplitNoSlash | merge_crown_ntuples_and_friends.py:42 | `os.path.split` of a slash-free name has an empty head |
| Paths.JoinNonEmpty | merge_crown_ntuples_and_friends.py:42 | joined clean components are non-empty and neither start nor end with a slash |
| Paths.JoinSnoc | merge_crown_ntuples_and_friends.py:42 | joining one more component appends a separator and it |
| Paths.LastIndexOf | merge_crown_ntuples_and_friends.py:42 | the last index of a character, or -1 |
| Paths.Basename | merge_crown_ntuples_and_friends.py:42 | the base name is the slash-free tail of the path |
| Paths.SplitExt | dCMS_usage_scripts/analyze_chimera_csv.py:378 | `splitext` cuts the path into stem and extension; the extension is empty or a dot and no slash |
| Paths.PathJoinKeepsBase | copy_test_files.py:23-31 | joining a relative name keeps the base: the result is the base then the name, with at most one slash between |

## Left out

- Concurrency. The asyncio pool of `n_threads` workers, `queue.join()` waiting, the cancellation of
  the workers after `join()`, `asyncio.gather`, and interleavings between workers are not
  modelled. One worker drains the queue, and a cancellation is an `Interrupt` outcome that arrives
  while a command runs.
- Cancellation while waiting in `queue.get()`: the worker always finds the queue non-empty when it
  takes a task, so this case does not arise in a single worker.
- Subprocess execution, `communicate()`, `terminate()`, and the command output: the exit codes are
  given. A cancellation during the compensating removal makes the handler call `terminate()` on a
  copy process that has already exited; this is modelled as the worker crashing (`WorkerCrashed`),
  not as the exact exception.
- Transfer.RetryRemoval, Transfer.RetryCopy: the retry loops are unbounded in the scripts. The model
  stops with `Undecided` / `OutOfOutcomes` when the given outcomes run out.
- Logging, log-file naming with `datetime`, argparse, `glob` and the sorting of input files,
  `os.path.expanduser`, and stdout versus file output. The options and file contents are
  parameters.
- `uuid.uuid4()`: the fresh names are a parameter, and distinctness is assumed where it is used
  (CopyTestFiles.FreshNames).
- `natsorted` of each file list (merge_crown_ntuples_and_friends.py:102): the script replaces each
  list with its natural sort before the check (line 108) and the merge (line 113). The model keeps
  the order in which the files were grouped, so the order of the files inside each merged column
  is not modelled. The check records one count per file name and file type, so its verdict does
  not depend on that order.
- MergeNtuples.MergeJobs: with `key := FileName` it runs the script as written, which never stops
  with `exit(1)` (MergeNtuples.AsWrittenMergesAll); a failing check (MergeNtuples.MismatchDetected)
  needs the corrected `key := Basename` of Findings.
- MergeNtuples.MergeMain: takes the same `key` as MergeNtuples.MergeJobs; `FileName` is the script
  as written, `Basename` the correction.
- ChimeraCsv.UserSummary: without a header it reads and sums each size on its own, the corrected
  reading of Findings. The script, given the default string column names, reads the user and
  size from positions 6 and 3 (lines 189-190) of rows kept whole, since line 183 passes no
  `usecols`; the model starts from rows already reduced to those two columns. The script applies `int()` to each user's concatenated size strings per
  chunk, so its totals differ (ChimeraCsv.JoinedSizesMisread), and it fails where the model does
  not: sizes `5` and `-3` of one user give `int("5-3")`. Chunk boundaries then matter too.
- ChimeraCsv.TotalsSpec: without a header it states the corrected totals, not the script's
  per-chunk concatenations (see ChimeraCsv.UserSummary above).
- ChimeraCsv.SummaryOkIff: without a header success means every size reads on its own; the script
  can still fail on a user's concatenation (see ChimeraCsv.UserSummary above).
- ChimeraCsv.ChunksOkIff: without a header it is about each size read on its own; for the script
  the chunk boundaries decide which strings are concatenated (see ChimeraCsv.UserSummary above).
- ChimeraCsv.UserSummaryCommand: without a header it returns the corrected totals, not the
  script's, and exit code 3 only where a size on its own cannot be read (see ChimeraCsv.UserSummary above).
- Text.Lower: lowers only `A`-`Z`. Python's `lower()` also lowers other letters (`É` to `é`) and
  can lengthen a string (`İ` becomes two characters). The one use, `username.lower() == "rucio"`
  (translate_chimera_dump_to_csv.py:86), gets the same verdict: no other character lowers into
  one of the letters of `rucio`.
- Text.ParseInt: accepts surrounding whitespace, an optional sign and the ASCII digits `0`-`9`
  with single `_` between them; `int()` also accepts the other Unicode decimal digits (such as
  Arabic-Indic digits), which the model rejects.
- Reading ROOT files with uproot, and the DataFrame concatenation and writing: entry counts are a
  function `entries`, and a merged output is the list of its file-type columns.
- pandas CSV reading: a CSV is a sequence of chunks of rows already reduced to the used columns.
  Column selection by name or index, `dtype` for columns other than size, and header handling are
  not modelled. ChimeraCsv.ReadUInt64 treats a size that `int()` rejects or that is out of range
  as a failure of the chunk, without modelling every parse rule of numpy.
- Floating point: `human_readable`, the `/ 1e12` terabyte column, the `--min-tb` filter, and the
  total-storage line. ChimeraCsv.ReportColumns takes the formatted size cell as the function
  `sizeCell`.
- Regular expressions: only the default user pattern `/store/user/([^/]+)/` and substring matching
  are modelled. A custom `--user-regex` and the `--regex` mode of the analysis tool are left out.
- The verbose prints of the translator and the analysis tool.
- The include and exclude presets (`--dcms-only`, `--cms-disk`, `--cms-tape`): they only append
  paths to the two lists.
- Paths.RelPath: `os.path.relpath` is modelled by components. `..` components inside either path
  are not resolved, and a relative path is not resolved against the working directory. The merge
  script calls it only for a path below its start (MergeNtuples.RelPathBelow).
- ChimeraTranslate.EntryRowFields: the round trip through `;` assumes no field and no directory
  holds a `;`. The script writes such a row as it is, and the user column may then be split
  wrongly by a reader.
- ChimeraCsv.ChunkingIrrelevant: with a header, numpy sums each chunk's sizes in 64 bits. The
  lemma assumes no chunk's sum for a user wraps around; the wrap itself is modelled in
  `ChunkTotal`.
- Encoding: files are read as text; `errors="ignore"` decoding is not modelled.

## Findings

| source | as written | input that shows it | evidently intended | confidence | as-written member | corrected member |
|---|---|---|---|---|---|---|
| merge_crown_ntuples_and_friends.py:55-60 | `consistency_dict` is keyed by the full file name, and each file is listed under one file type only, so every key records a single count and `len(set(...)) != 1` is never true | an ntuple `.../CROWNRun/job/a.root` with 100 entries and its friend `.../CROWNFriends/crosssection/job/a.root` with 90 entries: the check passes | files of the different file types that share a base name are compared, so the mismatch fails the check | not executed | MergeNtuples.AsWrittenAlwaysPasses | MergeNtuples.MismatchDetected |
| dCMS_usage_scripts/analyze_chimera_csv.py:177-196 | without a header every column is read as `str`, so `groupby("user")["size"].sum()` concatenates the size strings of a user, and `int()` reads the concatenation | `user-summary --no-header` on a `;`-separated file of two seven-column rows in the translator's layout, user `alice` in column 6 and sizes `100` and `200` in column 3 (the default column names are strings, so lines 189-190 read positions 6 and 3; the `usecols` of line 178 is never passed to `read_csv` at line 183): alice's total is 100200 | the user's total is the sum of the sizes, 300 | not executed | ChimeraCsv.JoinedSizesMisread | ChimeraCsv.UserTotals |
