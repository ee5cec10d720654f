/**
 * `remove_files.py`: every logical file name of the list is queued with the storage prefix,
 * and a worker removes each target with `gfal-rm`, retrying until the command reports
 * success (0) or a missing file (2).
 */
module RemoveFiles {
  import opened Text
  import opened Queues
  import opened Transfer

  /** `(f, storage_prefix)`, one queue item per list entry. */
  datatype RemoveTask = RemoveTask(lfn: string, storagePrefix: string)

  /** `storage_prefix.rstrip("/") + "/" + lfn.lstrip("/")`. */
  function RemoveTarget(prefix: string, lfn: string): string {
    TrimEnd(prefix, IsSlash) + "/" + TrimStart(lfn, IsSlash)
  }

  /**
   * Exactly one slash joins the prefix and the file name: the prefix loses only its
   * trailing slashes and the name only its leading ones.
   */
  lemma RemoveTargetJunction(prefix: string, lfn: string)
    ensures var head := TrimEnd(prefix, IsSlash);
      var r := RemoveTarget(prefix, lfn);
      && |head| < |r| && r[..|head|] <= prefix && r[|head|] == '/'
      && (|head| == 0 || r[|head| - 1] != '/')
      && (|head| + 1 == |r| || r[|head| + 1] != '/')
      && r[|head| + 1..] == TrimStart(lfn, IsSlash)
      && (forall i :: |head| <= i < |prefix| ==> prefix[i] == '/')
  {
    var head, tail := TrimEnd(prefix, IsSlash), TrimStart(lfn, IsSlash);
    var r := RemoveTarget(prefix, lfn);
    assert r == head + "/" + tail;
    assert r[..|head|] == head;
    assert r[|head|] == '/';
    assert r[|head| + 1..] == tail;
    if |head| > 0 {
      assert r[|head| - 1] == head[|head| - 1];
    }
    if |tail| > 0 {
      assert r[|head| + 1] == tail[0];
    }
  }

  /** Without slashes at the junction the target is the plain concatenation. */
  lemma RemoveTargetPlain(prefix: string, lfn: string)
    requires prefix == [] || prefix[|prefix| - 1] != '/'
    requires lfn == [] || lfn[0] != '/'
    ensures RemoveTarget(prefix, lfn) == prefix + "/" + lfn
  {
    assert TrimEnd(prefix, IsSlash) == prefix;
    assert TrimStart(lfn, IsSlash) == lfn;
  }

  /** Extra slashes on either side of the junction do not change the target. */
  lemma RemoveTargetSlashes(prefix: string, lfn: string)
    ensures RemoveTarget(prefix + "/", lfn) == RemoveTarget(prefix, lfn)
    ensures RemoveTarget(prefix, "/" + lfn) == RemoveTarget(prefix, lfn)
  {
    assert (prefix + "/")[..|prefix|] == prefix;
    assert ("/" + lfn)[1..] == lfn;
  }

  /** `f"gfal-rm {dry_run_option} {target_filepath}"`. */
  function RemoveCommand(dryRun: bool, target: string): string
  {
    "gfal-rm " + DryRunOption(dryRun) + " " + target
  }

  /** Without `--dry-run` the option leaves an empty word: two spaces before the target. */
  lemma RemoveCommandWords(dryRun: bool, target: string)
    ensures dryRun ==> RemoveCommand(dryRun, target) == "gfal-rm --dry-run " + target
    ensures !dryRun ==> RemoveCommand(dryRun, target) == "gfal-rm  " + target
    ensures forall t :: RemoveCommand(dryRun, t) == RemoveCommand(dryRun, target) ==> t == target
  {
    var lead := "gfal-rm " + DryRunOption(dryRun) + " ";
    forall t | RemoveCommand(dryRun, t) == RemoveCommand(dryRun, target) ensures t == target {
      assert RemoveCommand(dryRun, t)[|lead|..] == t;
      assert RemoveCommand(dryRun, target)[|lead|..] == target;
    }
  }

  /** `if lfn:` - an empty name is skipped; otherwise the command is built once. */
  function RemoveJob(dryRun: bool, t: RemoveTask): Job {
    if t.lfn == [] then Skip
    else Run(UntilRemoved(RemoveCommand(dryRun, RemoveTarget(t.storagePrefix, t.lfn))))
  }

  /** `for f in filelist: put_nowait((f, storage_prefix))`, as a list. */
  function RemovalTasks(files: seq<string>, prefix: string): (ts: seq<RemoveTask>)
    ensures |ts| == |files|
    ensures forall i :: 0 <= i < |files| ==> ts[i] == RemoveTask(files[i], prefix)
  {
    seq(|files|, i requires 0 <= i < |files| => RemoveTask(files[i], prefix))
  }

  function RemoveJobs(dryRun: bool, tasks: seq<RemoveTask>): seq<Job> {
    Jobs(tasks, (t: RemoveTask) => RemoveJob(dryRun, t))
  }

  /** The enqueue loop of `main`: one task per list entry, in list order. */
  method EnqueueRemovals(files: seq<string>, prefix: string) returns (queue: TaskQueue<RemoveTask>)
    ensures fresh(queue)
    ensures queue.pending == RemovalTasks(files, prefix)
    ensures queue.unfinished == |files| && queue.Valid()
  {
    queue := new TaskQueue();
    for i := 0 to |files|
      invariant queue.pending == RemovalTasks(files[..i], prefix)
      invariant queue.unfinished == i && queue.Valid()
    {
      queue.PutNowait(RemoveTask(files[i], prefix));
      assert files[..i + 1] == files[..i] + [files[i]];
    }
    assert files[..|files|] == files;
  }

  /** `execute_remove`, run by a single worker over the outcomes `env`. */
  method ExecuteRemove(queue: TaskQueue<RemoveTask>, dryRun: bool, env: seq<Outcome>) returns (w: WorkerRun)
    requires |queue.pending| <= queue.unfinished
    modifies queue
    ensures w == Drain(RemoveJobs(dryRun, old(queue.pending)), env)
    ensures queue.pending == old(queue.pending)[w.taken..]
    ensures queue.unfinished == old(queue.unfinished) - w.done
  {
    w := ExecuteWorker(queue, (t: RemoveTask) => RemoveJob(dryRun, t), env);
  }

  /**
   * `main` with one worker: the list read from `lines` is queued and drained, and
   * `join()` returns exactly when the worker emptied the queue and no entry was blank.
   */
  method RemoveFilesMain(lines: seq<string>, dryRun: bool, prefix: string, env: seq<Outcome>)
    returns (w: WorkerRun, joined: bool)
    ensures w == Drain(RemoveJobs(dryRun, RemovalTasks(FileList(lines), prefix)), env)
    ensures joined <==> w.end == QueueEmpty && forall i :: 0 <= i < |lines| ==> FileList(lines)[i] != []
  {
    var files := FileList(lines);
    var queue := EnqueueRemovals(files, prefix);
    w := ExecuteRemove(queue, dryRun, env);
    joined := queue.Joined();
    JoinedIffNoBlank(files, dryRun, prefix, env);
  }

  lemma JoinedIffNoBlank(files: seq<string>, dryRun: bool, prefix: string, env: seq<Outcome>)
    ensures var w := Drain(RemoveJobs(dryRun, RemovalTasks(files, prefix)), env);
      |files| - w.done == 0 <==> w.end == QueueEmpty && forall i :: 0 <= i < |files| ==> files[i] != []
  {
    var jobs := RemoveJobs(dryRun, RemovalTasks(files, prefix));
    var w := Drain(jobs, env);
    DrainSpec(jobs, env);
    if w.end == QueueEmpty {
      JoinNeedsNoSkips(jobs, env);
      assert (forall i :: 0 <= i < |jobs| ==> jobs[i].Run?) <==> forall i :: 0 <= i < |files| ==> files[i] != [];
    }
  }

  /**
   * When every `gfal-rm` succeeds at once and no entry is blank, the worker spawns one
   * removal per entry, in list order, and marks every task done.
   */
  lemma RemovalsInListOrder(files: seq<string>, dryRun: bool, prefix: string)
    requires forall i :: 0 <= i < |files| ==> files[i] != []
    ensures var w := Drain(RemoveJobs(dryRun, RemovalTasks(files, prefix)), Successes(|files|));
      && w.end == QueueEmpty && w.done == |files|
      && |w.commands| == |files|
      && forall i :: 0 <= i < |files| ==> w.commands[i] == RemoveCommand(dryRun, RemoveTarget(prefix, files[i]))
  {
    var jobs := RemoveJobs(dryRun, RemovalTasks(files, prefix));
    DrainAllSucceed(jobs);
  }
}
