/**
 * `copy_files.py`: every logical file name of the list is queued with both storage prefixes
 * and the directory rename, and a worker copies each file with `gfal-copy`, removing the
 * partial target with `gfal-rm` after every failed attempt.
 */
module CopyFiles {
  import opened Text
  import opened Queues
  import opened Transfer

  /** `(f, input_storage_prefix, output_storage_prefix, old_directory, new_directory)`. */
  datatype CopyTask = CopyTask(lfn: string, inputPrefix: string, outputPrefix: string, oldDir: string, newDir: string)

  /** `input_storage_prefix + lfn`. */
  function CopyInput(t: CopyTask): string {
    t.inputPrefix + t.lfn
  }

  /** `output_storage_prefix + lfn.replace(olddir, newdir)`. */
  function CopyTarget(t: CopyTask): string {
    t.outputPrefix + Replace(t.lfn, t.oldDir, t.newDir)
  }

  /** `f"gfal-copy {dry_run_option} --force {input_filepath} {target_filepath} --checksum-mode both"`. */
  function CopyCommand(dryRun: bool, input: string, target: string): string {
    "gfal-copy " + DryRunOption(dryRun) + " --force " + input + " " + target + " --checksum-mode both"
  }

  /** `f"gfal-rm {target_filepath}"`: the compensating removal, never a dry run. */
  function CompensatingRemove(target: string): string {
    "gfal-rm " + target
  }

  /** `if lfn:` - an empty name is skipped; otherwise both commands are built once. */
  function CopyJob(dryRun: bool, t: CopyTask): Job {
    if t.lfn == [] then Skip
    else Run(CopyCompensated(CopyCommand(dryRun, CopyInput(t), CopyTarget(t)), CompensatingRemove(CopyTarget(t))))
  }

  /**
   * The old directory is swapped for the new one wherever it occurs: with one occurrence,
   * the target is the output prefix, the part before it, the new directory and the rest.
   */
  lemma CopyTargetSwapsDirectory(t: CopyTask, before: string, after: string)
    requires t.oldDir != [] && t.lfn == before + t.oldDir + after
    requires forall i :: 0 <= i < |before| ==> !OccursAt(t.lfn, t.oldDir, i)
    requires !Contains(after, t.oldDir)
    ensures CopyTarget(t) == t.outputPrefix + before + t.newDir + after
  {
    var from, to := t.oldDir, t.newDir;
    var rest := from + after;
    assert t.lfn == before + rest;
    calc {
      Replace(t.lfn, from, to);
      { ReplaceKeeps(before, rest, from, to); }
      before + Replace(rest, from, to);
      { ReplaceHead(from, after, to); }
      before + (to + Replace(after, from, to));
      { ReplaceAbsent(after, from, to); }
      before + (to + after);
    }
  }

  /** A name without the old directory, or an unchanged directory, keeps its path below the prefix. */
  lemma CopyTargetUnchanged(t: CopyTask)
    requires (t.oldDir != [] && !Contains(t.lfn, t.oldDir)) || t.oldDir == t.newDir
    ensures CopyTarget(t) == t.outputPrefix + t.lfn
  {
    if t.oldDir == t.newDir {
      ReplaceSelf(t.lfn, t.oldDir);
    } else {
      ReplaceAbsent(t.lfn, t.oldDir, t.newDir);
    }
  }

  /** Without `--dry-run` the option leaves an empty word: two spaces before `--force`. */
  lemma CopyCommandWords(dryRun: bool, input: string, target: string)
    ensures dryRun ==>
      CopyCommand(dryRun, input, target) == "gfal-copy --dry-run --force " + input + " " + target + " --checksum-mode both"
    ensures !dryRun ==>
      CopyCommand(dryRun, input, target) == "gfal-copy  --force " + input + " " + target + " --checksum-mode both"
  {
  }

  /** `for f in filelist: put_nowait((f, ...))`, as a list. */
  function CopyTasks(files: seq<string>, inputPrefix: string, outputPrefix: string, oldDir: string, newDir: string)
    : (ts: seq<CopyTask>)
    ensures |ts| == |files|
    ensures forall i :: 0 <= i < |files| ==> ts[i] == CopyTask(files[i], inputPrefix, outputPrefix, oldDir, newDir)
  {
    seq(|files|, i requires 0 <= i < |files| => CopyTask(files[i], inputPrefix, outputPrefix, oldDir, newDir))
  }

  function CopyJobs(dryRun: bool, tasks: seq<CopyTask>): seq<Job> {
    Jobs(tasks, (t: CopyTask) => CopyJob(dryRun, t))
  }

  /** The enqueue loop of `main`: one task per list entry, in list order. */
  method EnqueueCopies(files: seq<string>, inputPrefix: string, outputPrefix: string, oldDir: string, newDir: string)
    returns (queue: TaskQueue<CopyTask>)
    ensures fresh(queue)
    ensures queue.pending == CopyTasks(files, inputPrefix, outputPrefix, oldDir, newDir)
    ensures queue.unfinished == |files| && queue.Valid()
  {
    queue := new TaskQueue();
    for i := 0 to |files|
      invariant queue.pending == CopyTasks(files[..i], inputPrefix, outputPrefix, oldDir, newDir)
      invariant queue.unfinished == i && queue.Valid()
    {
      queue.PutNowait(CopyTask(files[i], inputPrefix, outputPrefix, oldDir, newDir));
      assert files[..i + 1] == files[..i] + [files[i]];
    }
    assert files[..|files|] == files;
  }

  /** `execute_copy`, run by a single worker over the outcomes `env`. */
  method ExecuteCopy(queue: TaskQueue<CopyTask>, dryRun: bool, env: seq<Outcome>) returns (w: WorkerRun)
    requires |queue.pending| <= queue.unfinished
    modifies queue
    ensures w == Drain(CopyJobs(dryRun, old(queue.pending)), env)
    ensures queue.pending == old(queue.pending)[w.taken..]
    ensures queue.unfinished == old(queue.unfinished) - w.done
  {
    w := ExecuteWorker(queue, (t: CopyTask) => CopyJob(dryRun, t), env);
  }

  /**
   * `main` with one worker: the list read from `lines` is queued and drained, and
   * `join()` returns exactly when the worker emptied the queue and no entry was blank.
   */
  method CopyFilesMain(lines: seq<string>, dryRun: bool, oldDir: string, newDir: string,
                       inputPrefix: string, outputPrefix: string, env: seq<Outcome>)
    returns (w: WorkerRun, joined: bool)
    ensures w == Drain(CopyJobs(dryRun, CopyTasks(FileList(lines), inputPrefix, outputPrefix, oldDir, newDir)), env)
    ensures joined <==> w.end == QueueEmpty && forall i :: 0 <= i < |lines| ==> FileList(lines)[i] != []
  {
    var files := FileList(lines);
    var queue := EnqueueCopies(files, inputPrefix, outputPrefix, oldDir, newDir);
    w := ExecuteCopy(queue, dryRun, env);
    joined := queue.Joined();
    CopyJoinedIffNoBlank(files, dryRun, inputPrefix, outputPrefix, oldDir, newDir, env);
  }

  lemma CopyJoinedIffNoBlank(files: seq<string>, dryRun: bool, inputPrefix: string, outputPrefix: string,
                             oldDir: string, newDir: string, env: seq<Outcome>)
    ensures var w := Drain(CopyJobs(dryRun, CopyTasks(files, inputPrefix, outputPrefix, oldDir, newDir)), env);
      |files| - w.done == 0 <==> w.end == QueueEmpty && forall i :: 0 <= i < |files| ==> files[i] != []
  {
    var jobs := CopyJobs(dryRun, CopyTasks(files, inputPrefix, outputPrefix, oldDir, newDir));
    var w := Drain(jobs, env);
    DrainSpec(jobs, env);
    if w.end == QueueEmpty {
      JoinNeedsNoSkips(jobs, env);
      assert (forall i :: 0 <= i < |jobs| ==> jobs[i].Run?) <==> forall i :: 0 <= i < |files| ==> files[i] != [];
    }
  }

  /**
   * When every copy succeeds at once and no entry is blank, the worker spawns one copy per
   * entry, in list order, no removal, and marks every task done.
   */
  lemma CopiesInListOrder(files: seq<string>, dryRun: bool, inputPrefix: string, outputPrefix: string,
                          oldDir: string, newDir: string)
    requires forall i :: 0 <= i < |files| ==> files[i] != []
    ensures var ts := CopyTasks(files, inputPrefix, outputPrefix, oldDir, newDir);
      var w := Drain(CopyJobs(dryRun, ts), Successes(|files|));
      && w.end == QueueEmpty && w.done == |files|
      && |w.commands| == |files|
      && forall i :: 0 <= i < |files| ==> w.commands[i] == CopyCommand(dryRun, CopyInput(ts[i]), CopyTarget(ts[i]))
  {
    var jobs := CopyJobs(dryRun, CopyTasks(files, inputPrefix, outputPrefix, oldDir, newDir));
    DrainAllSucceed(jobs);
  }
}
