/**
 * `copy_test_files.py`: a fixed number of test transfers cycles round-robin over the file
 * list, each copied to a fresh name in the new directory, with the same retry and
 * compensation as `copy_files.py`.
 *
 * The fresh names (`uuid.uuid4()`) are given as the sequence `ids`.
 */
module CopyTestFiles {
  import opened Text
  import opened Paths
  import opened Queues
  import opened Transfer
  import CopyFiles

  /** `(source_lfn, new_name, input_prefix, output_prefix, old_directory, new_directory)`. */
  datatype TestTransfer = TestTransfer(sourceLfn: string, newName: string, inputPrefix: string,
                                       outputPrefix: string, oldDir: string, newDir: string)

  /** `os.path.join(input_prefix, source_lfn.lstrip("/"))`. */
  function TestInput(t: TestTransfer): string {
    PathJoin(t.inputPrefix, TrimStart(t.sourceLfn, IsSlash))
  }

  /** `os.path.join(output_prefix, new_directory, new_name)`. */
  function TestTarget(t: TestTransfer): string {
    PathJoin(PathJoin(t.outputPrefix, t.newDir), t.newName)
  }

  /** `if source_lfn:` - an empty name is skipped; otherwise the commands of `copy_files.py`. */
  function TestJob(dryRun: bool, t: TestTransfer): Job {
    if t.sourceLfn == [] then Skip
    else Run(CopyCompensated(CopyFiles.CopyCommand(dryRun, TestInput(t), TestTarget(t)),
                             CopyFiles.CompensatingRemove(TestTarget(t))))
  }

  /** Stripping the name's leading slashes keeps `os.path.join` from discarding the prefix. */
  lemma TestInputKeepsPrefix(t: TestTransfer)
    ensures var name := TrimStart(t.sourceLfn, IsSlash);
      TestInput(t) == t.inputPrefix + name || TestInput(t) == t.inputPrefix + "/" + name
    ensures t.inputPrefix <= TestInput(t)
  {
    PathJoinKeepsBase(t.inputPrefix, TrimStart(t.sourceLfn, IsSlash));
  }

  /** The target names neither the source file nor the old directory. */
  lemma TestTargetIgnoresSource(t: TestTransfer, source: string, inputPrefix: string, oldDir: string)
    ensures TestTarget(t.(sourceLfn := source, inputPrefix := inputPrefix, oldDir := oldDir)) == TestTarget(t)
  {
  }

  /** A relative new name ends the target. */
  lemma TestTargetEndsWithName(t: TestTransfer)
    requires t.newName != [] && t.newName[0] != '/'
    ensures |t.newName| <= |TestTarget(t)|
    ensures TestTarget(t)[|TestTarget(t)| - |t.newName|..] == t.newName
  {
    var dir := PathJoin(t.outputPrefix, t.newDir);
    PathJoinKeepsBase(dir, t.newName);
    var r := TestTarget(t);
    if r == dir + t.newName {
      assert r[|dir|..] == t.newName;
    } else {
      assert r[|dir| + 1..] == t.newName;
    }
  }

  /**
   * `for _ in range(total_transfers): source_file = next(file_cycle)`: transfer `i` copies
   * entry `i mod |files|` to the fresh name `ids[i] + extension`.
   */
  function TestTransfers(files: seq<string>, ids: seq<string>, extension: string, total: nat,
                         inputPrefix: string, outputPrefix: string, oldDir: string, newDir: string)
    : (ts: seq<TestTransfer>)
    requires |files| > 0 || total == 0
    requires |ids| >= total
    ensures |ts| == total
  {
    seq(total, i requires 0 <= i < total && |files| > 0 =>
      TestTransfer(files[i % |files|], ids[i] + extension, inputPrefix, outputPrefix, oldDir, newDir))
  }

  /**
   * The first lap takes the list in order, and every later transfer repeats the source of
   * the one `|files|` places before it.
   */
  lemma RoundRobin(files: seq<string>, ids: seq<string>, extension: string, total: nat,
                   inputPrefix: string, outputPrefix: string, oldDir: string, newDir: string)
    requires |files| > 0 && |ids| >= total
    ensures var ts := TestTransfers(files, ids, extension, total, inputPrefix, outputPrefix, oldDir, newDir);
      && (forall i :: 0 <= i < total && i < |files| ==> ts[i].sourceLfn == files[i])
      && (forall i :: |files| <= i < total ==> ts[i].sourceLfn == ts[i - |files|].sourceLfn)
  {
    var ts := TestTransfers(files, ids, extension, total, inputPrefix, outputPrefix, oldDir, newDir);
    forall i | 0 <= i < total && i < |files| ensures ts[i].sourceLfn == files[i] {
      SourceAt(files, ids, extension, total, inputPrefix, outputPrefix, oldDir, newDir, i);
      ModUnique(i, |files|, 0, i);
    }
    forall i | |files| <= i < total ensures ts[i].sourceLfn == ts[i - |files|].sourceLfn {
      PeriodicAt(files, ids, extension, total, inputPrefix, outputPrefix, oldDir, newDir, i);
    }
  }

  lemma PeriodicAt(files: seq<string>, ids: seq<string>, extension: string, total: nat,
                   inputPrefix: string, outputPrefix: string, oldDir: string, newDir: string, i: nat)
    requires |ids| >= total && 0 < |files| <= i < total
    ensures var ts := TestTransfers(files, ids, extension, total, inputPrefix, outputPrefix, oldDir, newDir);
      ts[i].sourceLfn == ts[i - |files|].sourceLfn
  {
    var n := |files|;
    var j := i - n;
    SourceAt(files, ids, extension, total, inputPrefix, outputPrefix, oldDir, newDir, i);
    SourceAt(files, ids, extension, total, inputPrefix, outputPrefix, oldDir, newDir, j);
    ModStep(i, n);
  }

  lemma SourceAt(files: seq<string>, ids: seq<string>, extension: string, total: nat,
                 inputPrefix: string, outputPrefix: string, oldDir: string, newDir: string, i: nat)
    requires |files| > 0 && |ids| >= total && i < total
    ensures TestTransfers(files, ids, extension, total, inputPrefix, outputPrefix, oldDir, newDir)[i].sourceLfn
         == files[i % |files|]
  {
  }

  /** Every new name ends with the extension, and distinct fresh identifiers give distinct names. */
  lemma FreshNames(files: seq<string>, ids: seq<string>, extension: string, total: nat,
                   inputPrefix: string, outputPrefix: string, oldDir: string, newDir: string)
    requires |files| > 0 && |ids| >= total
    requires forall i, j :: 0 <= i < j < |ids| ==> ids[i] != ids[j]
    ensures var ts := TestTransfers(files, ids, extension, total, inputPrefix, outputPrefix, oldDir, newDir);
      && (forall i :: 0 <= i < total ==> |extension| <= |ts[i].newName| && ts[i].newName[|ts[i].newName| - |extension|..] == extension)
      && (forall i, j :: 0 <= i < j < total ==> ts[i].newName != ts[j].newName)
  {
    var ts := TestTransfers(files, ids, extension, total, inputPrefix, outputPrefix, oldDir, newDir);
    forall i | 0 <= i < total ensures ts[i].newName[|ts[i].newName| - |extension|..] == extension {
      assert ts[i].newName == ids[i] + extension;
    }
    forall i, j | 0 <= i < j < total ensures ts[i].newName != ts[j].newName {
      NamesDiffer(ids[i], ids[j], extension);
    }
  }

  lemma NamesDiffer(a: string, b: string, extension: string)
    requires a != b
    ensures a + extension != b + extension
  {
    if |a| == |b| {
      assert (a + extension)[..|a|] == a && (b + extension)[..|b|] == b;
    }
  }

  lemma MulAtLeast(a: int, n: int)
    requires a >= 1 && n > 0
    ensures a * n >= n
  {
    if a > 1 {
      MulAtLeast(a - 1, n);
      assert a * n == (a - 1) * n + n;
    }
  }

  lemma ModUnique(i: int, n: int, q: int, r: int)
    requires n > 0 && 0 <= r < n && i == q * n + r
    ensures i % n == r
  {
    var q', r' := i / n, i % n;
    assert i == q' * n + r' && 0 <= r' < n;
    assert (q - q') * n == r' - r;
    if q > q' {
      MulAtLeast(q - q', n);
    } else if q < q' {
      MulAtLeast(q' - q, n);
    }
  }

  lemma ModStep(i: nat, n: nat)
    requires 0 < n <= i
    ensures i % n == (i - n) % n
  {
    var q, r := (i - n) / n, (i - n) % n;
    assert i - n == q * n + r;
    ModUnique(i, n, q + 1, r);
  }

  /** Advancing a cycle: the position after `i` wraps to 0 at the end of the list. */
  lemma ModNext(i: nat, n: nat)
    requires 0 < n
    ensures (i + 1) % n == if i % n + 1 == n then 0 else i % n + 1
  {
    var q, r := i / n, i % n;
    assert i == q * n + r;
    if r + 1 == n {
      ModUnique(i + 1, n, q + 1, 0);
    } else {
      ModUnique(i + 1, n, q, r + 1);
    }
  }

  lemma TestTransfersSnoc(files: seq<string>, ids: seq<string>, extension: string, i: nat,
                          inputPrefix: string, outputPrefix: string, oldDir: string, newDir: string)
    requires |files| > 0 && |ids| > i
    ensures TestTransfers(files, ids, extension, i + 1, inputPrefix, outputPrefix, oldDir, newDir)
         == TestTransfers(files, ids, extension, i, inputPrefix, outputPrefix, oldDir, newDir)
            + [TestTransfer(files[i % |files|], ids[i] + extension, inputPrefix, outputPrefix, oldDir, newDir)]
  {
  }

  /**
   * The production loop of `main`. `next` on a cycle over an empty list raises `StopIteration`,
   * which leaves the coroutine `main` as a `RuntimeError` before anything is queued; that is
   * `stopped`.
   */
  method ProduceTestTransfers(files: seq<string>, ids: seq<string>, extension: string, total: nat,
                              inputPrefix: string, outputPrefix: string, oldDir: string, newDir: string)
    returns (queue: TaskQueue<TestTransfer>, stopped: bool)
    requires |ids| >= total
    ensures fresh(queue)
    ensures stopped <==> |files| == 0 && total > 0
    ensures stopped ==> queue.pending == [] && queue.unfinished == 0
    ensures !stopped ==> queue.pending == TestTransfers(files, ids, extension, total, inputPrefix, outputPrefix, oldDir, newDir)
    ensures queue.unfinished == |queue.pending| && queue.Valid()
  {
    queue := new TaskQueue();
    var cursor := 0;
    for i := 0 to total
      invariant |files| > 0 ==> cursor == i % |files|
      invariant |files| == 0 ==> i == 0
      invariant queue.pending == TestTransfers(files, ids, extension, i, inputPrefix, outputPrefix, oldDir, newDir)
      invariant queue.unfinished == i && queue.Valid()
    {
      if |files| == 0 {
        return queue, true;
      }
      var source := files[cursor];
      ModNext(i, |files|);
      TestTransfersSnoc(files, ids, extension, i, inputPrefix, outputPrefix, oldDir, newDir);
      cursor := if cursor + 1 == |files| then 0 else cursor + 1;
      queue.PutNowait(TestTransfer(source, ids[i] + extension, inputPrefix, outputPrefix, oldDir, newDir));
    }
    stopped := false;
  }

  function TestJobs(dryRun: bool, tasks: seq<TestTransfer>): seq<Job> {
    Jobs(tasks, (t: TestTransfer) => TestJob(dryRun, t))
  }

  /** `execute_copy` of the test script, run by a single worker over the outcomes `env`. */
  method ExecuteTestCopy(queue: TaskQueue<TestTransfer>, dryRun: bool, env: seq<Outcome>) returns (w: WorkerRun)
    requires |queue.pending| <= queue.unfinished
    modifies queue
    ensures w == Drain(TestJobs(dryRun, old(queue.pending)), env)
    ensures queue.pending == old(queue.pending)[w.taken..]
    ensures queue.unfinished == old(queue.unfinished) - w.done
  {
    w := ExecuteWorker(queue, (t: TestTransfer) => TestJob(dryRun, t), env);
  }
}
