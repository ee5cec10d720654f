/**
 * What `execute_remove` and the two `execute_copy` workers share: the retry policies of one
 * task, driven by the outcomes of the spawned `gfal` commands, and one worker draining the
 * task queue.
 *
 * Subprocesses are not run: the environment is a sequence of outcomes, one per spawned
 * command, in the order the worker awaits them. `Interrupt` stands for the `CancelledError`
 * delivered while the worker awaits a running command.
 */
module Transfer {
  import opened Text
  import opened Queues

  datatype Outcome = Exit(code: int) | Interrupt

  /** How one task ends. `Undecided`: the outcomes ran out while a spawned command was awaited. */
  datatype TaskEnd = Finished(code: int) | Cancelled | Crashed | Undecided

  /** The commands spawned for one task, how it ended and how many outcomes it consumed. */
  datatype Attempts = Attempts(commands: seq<string>, end: TaskEnd, used: nat)

  /** `"--dry-run" if dry_run else ""`. */
  function DryRunOption(dryRun: bool): string {
    if dryRun then "--dry-run" else ""
  }

  /** `[l.strip().split(",")[0] for l in lines]`: the file list read by every script. */
  function FileList(lines: seq<string>): (files: seq<string>)
    ensures |files| == |lines|
    ensures forall i :: 0 <= i < |lines| ==> files[i] == FirstField(Strip(lines[i]), ',')
  {
    seq(|lines|, i requires 0 <= i < |lines| => FirstField(Strip(lines[i]), ','))
  }

  /** Each entry is the part of its stripped line before the first comma. */
  lemma FileListEntries(lines: seq<string>, i: nat)
    requires i < |lines|
    ensures ',' !in FileList(lines)[i]
    ensures FileList(lines)[i] <= Strip(lines[i])
    ensures ',' !in Strip(lines[i]) ==> FileList(lines)[i] == Strip(lines[i])
    ensures FileList(lines)[i] == [] <==> Strip(lines[i]) == [] || Strip(lines[i])[0] == ','
  {
    var s := Strip(lines[i]);
    var f := FirstField(s, ',');
    var parts := Split(s, ',');
    assert f == parts[0];
    SplitJoin(parts, ',');
    JoinFirst(parts, ',');
    if ',' !in s {
      assert f == s;
    }
    if f == [] && s != [] {
      assert s[0] == ',';
    }
  }

  /** The first part of a join is a prefix of it, followed by the separator when more parts come. */
  lemma JoinFirst(parts: seq<string>, sep: char)
    requires |parts| >= 1
    ensures parts[0] <= Join(parts, sep)
    ensures |parts| > 1 ==> |Join(parts, sep)| > |parts[0]| && Join(parts, sep)[|parts[0]|] == sep
  {
  }

  function Then(cmds: seq<string>, n: nat, a: Attempts): Attempts {
    Attempts(cmds + a.commands, a.end, n + a.used)
  }

  /** `execute_remove` retries while the code is neither 0 (removed) nor 2 (missing). */
  predicate RemoveRetries(o: Outcome) {
    o.Exit? && o.code != 0 && o.code != 2
  }

  /**
   * `retcode = 1; while retcode and retcode != 2:` spawn `command` and await its code.
   * A cancellation terminates the running command and ends the task.
   */
  function RemoveAttempts(command: string, env: seq<Outcome>): (a: Attempts)
    ensures 1 <= |a.commands| && a.used <= |env|
    decreases |env|
  {
    if env == [] then Attempts([command], Undecided, 0)
    else if RemoveRetries(env[0]) then Then([command], 1, RemoveAttempts(command, env[1..]))
    else if env[0].Interrupt? then Attempts([command], Cancelled, 1)
    else Attempts([command], Finished(env[0].code), 1)
  }

  /**
   * `while retcode:` spawn the copy; after every nonzero code spawn `rm` once, whose code is
   * not looked at. A cancellation while the copy runs terminates it; one while `rm` runs
   * makes the handler terminate the copy process that has already exited, which raises
   * `ProcessLookupError` out of the worker.
   */
  function CopyAttempts(copy: string, rm: string, env: seq<Outcome>): (a: Attempts)
    ensures 1 <= |a.commands| && a.used <= |env|
    decreases |env|
  {
    if env == [] then Attempts([copy], Undecided, 0)
    else if env[0] == Exit(0) then Attempts([copy], Finished(0), 1)
    else if env[0].Interrupt? then Attempts([copy], Cancelled, 1)
    else if |env| == 1 then Attempts([copy, rm], Undecided, 1)
    else if env[1].Interrupt? then Attempts([copy, rm], Crashed, 2)
    else Then([copy, rm], 2, CopyAttempts(copy, rm, env[2..]))
  }

  /** The retry policy of one task, with its command strings built once before the loop. */
  datatype Policy = UntilRemoved(command: string) | CopyCompensated(copy: string, rm: string)

  function Attempt(p: Policy, env: seq<Outcome>): (a: Attempts)
    ensures 1 <= |a.commands| && a.used <= |env|
  {
    match p
    case UntilRemoved(command) => RemoveAttempts(command, env)
    case CopyCompensated(copy, rm) => CopyAttempts(copy, rm, env)
  }

  /**
   * Removal spawns the same command every time and stops exactly at the first outcome that
   * is not a retry: code 0 or 2 finishes the task with that code, a cancellation cancels it.
   */
  lemma {:induction false} RemoveAttemptsSpec(command: string, env: seq<Outcome>)
    ensures var a := RemoveAttempts(command, env);
      && (forall j :: 0 <= j < |a.commands| ==> a.commands[j] == command)
      && (forall k :: 0 <= k < |a.commands| - 1 ==> k < |env| && RemoveRetries(env[k]))
      && (a.end == Undecided <==> a.used == |env| && a.used == |a.commands| - 1)
      && (a.end != Undecided ==> a.used == |a.commands| && !RemoveRetries(env[a.used - 1]))
      && (a.end.Finished? ==> env[a.used - 1] == Exit(a.end.code) && (a.end.code == 0 || a.end.code == 2))
      && (a.end == Cancelled <==> a.end != Undecided && env[a.used - 1] == Interrupt)
      && a.end != Crashed
    decreases |env|
  {
    if env != [] && RemoveRetries(env[0]) {
      RemoveAttemptsSpec(command, env[1..]);
      var b := RemoveAttempts(command, env[1..]);
      assert RemoveAttempts(command, env) == Then([command], 1, b);
      forall k | 0 <= k < |b.commands| ensures k + 1 < |env| + 1 && (k + 1 < |env| ==> env[k + 1] == env[1..][k]) {
      }
      if b.end != Undecided {
        assert env[b.used] == env[1..][b.used - 1];
      }
    }
  }

  /** The attempt count is one more than the number of leading retry codes. */
  lemma {:induction false} RemoveAttemptCount(command: string, env: seq<Outcome>, k: nat)
    requires k < |env| && !RemoveRetries(env[k])
    requires forall j :: 0 <= j < k ==> RemoveRetries(env[j])
    ensures |RemoveAttempts(command, env).commands| == k + 1
    ensures RemoveAttempts(command, env).used == k + 1
    decreases k
  {
    if k > 0 {
      assert RemoveRetries(env[0]);
      forall j | 0 <= j < k - 1 ensures RemoveRetries(env[1..][j]) {
        assert env[1..][j] == env[j + 1];
      }
      RemoveAttemptCount(command, env[1..], k - 1);
    }
  }

  /**
   * Copying alternates the copy command with one compensating `rm`, so K failed copies give
   * K removals; every copy outcome before the last was a nonzero code, and the task finishes
   * only on code 0.
   */
  lemma CopyAttemptsSpec(copy: string, rm: string, env: seq<Outcome>)
    ensures var a := CopyAttempts(copy, rm, env);
      && (forall j :: 0 <= j < |a.commands| ==> a.commands[j] == if j % 2 == 0 then copy else rm)
      && (forall j :: 0 <= j < |a.commands| - 1 && j % 2 == 0 ==> j < |env| && env[j].Exit? && env[j].code != 0)
      && (forall j :: 0 <= j < |a.commands| - 1 && j % 2 == 1 ==> j < |env| && env[j].Exit?)
      && (a.end.Finished? ==> a.end.code == 0 && a.used == |a.commands| && (a.used - 1) % 2 == 0 && env[a.used - 1] == Exit(0))
      && (a.end == Cancelled ==> a.used == |a.commands| && (a.used - 1) % 2 == 0 && env[a.used - 1] == Interrupt)
      && (a.end == Crashed ==> a.used == |a.commands| && (a.used - 1) % 2 == 1 && env[a.used - 1] == Interrupt)
      && (a.end == Undecided <==> a.used == |env| && a.used == |a.commands| - 1)
  {
    CopyCommandsAlternate(copy, rm, env);
    CopyFailuresBefore(copy, rm, env);
    CopyRemovalsBefore(copy, rm, env);
    CopyEnds(copy, rm, env);
  }

  /** A failed copy and its removal, followed by the attempts on the rest. */
  predicate FailedRound(env: seq<Outcome>) {
    |env| >= 2 && env[0].Exit? && env[0].code != 0 && env[1].Exit?
  }

  /** The command at position `j` of a copy task: the copy at even positions, the removal at odd ones. */
  function Alternating(copy: string, rm: string, j: int): string {
    if j % 2 == 0 then copy else rm
  }

  lemma {:induction false} CopyCommandsAlternate(copy: string, rm: string, env: seq<Outcome>)
    ensures var cs := CopyAttempts(copy, rm, env).commands;
      forall j :: 0 <= j < |cs| ==> cs[j] == Alternating(copy, rm, j)
    decreases |env|
  {
    if FailedRound(env) {
      CopyCommandsAlternate(copy, rm, env[2..]);
      var bs := CopyAttempts(copy, rm, env[2..]).commands;
      var cs := CopyAttempts(copy, rm, env).commands;
      assert cs == [copy, rm] + bs;
      forall j | 2 <= j < |cs| ensures cs[j] == Alternating(copy, rm, j) {
        assert cs[j] == bs[j - 2];
        AlternatingShift(copy, rm, j);
      }
    }
  }

  /** Two positions further on, the command is the same kind. */
  lemma AlternatingShift(copy: string, rm: string, j: int)
    ensures Alternating(copy, rm, j + 2) == Alternating(copy, rm, j)
    ensures Alternating(copy, rm, j - 2) == Alternating(copy, rm, j)
  {
  }

  lemma {:induction false} CopyFailuresBefore(copy: string, rm: string, env: seq<Outcome>)
    ensures var a := CopyAttempts(copy, rm, env);
      forall j :: 0 <= j < |a.commands| - 1 && j % 2 == 0 ==> j < |env| && env[j].Exit? && env[j].code != 0
    decreases |env|
  {
    if FailedRound(env) {
      CopyFailuresBefore(copy, rm, env[2..]);
      var b := CopyAttempts(copy, rm, env[2..]);
      var cs := CopyAttempts(copy, rm, env).commands;
      assert |cs| == |b.commands| + 2;
      forall j | 2 <= j < |cs| - 1 && j % 2 == 0 ensures j < |env| && env[j].Exit? && env[j].code != 0 {
        assert (j - 2) % 2 == 0;
        assert env[j] == env[2..][j - 2];
      }
    }
  }

  /** Every compensating `rm` before the last command ran to an exit code: none was cancelled. */
  lemma {:induction false} CopyRemovalsBefore(copy: string, rm: string, env: seq<Outcome>)
    ensures var a := CopyAttempts(copy, rm, env);
      forall j :: 0 <= j < |a.commands| - 1 && j % 2 == 1 ==> j < |env| && env[j].Exit?
    decreases |env|
  {
    if FailedRound(env) {
      CopyRemovalsBefore(copy, rm, env[2..]);
      var b := CopyAttempts(copy, rm, env[2..]);
      var cs := CopyAttempts(copy, rm, env).commands;
      assert |cs| == |b.commands| + 2;
      forall j | 2 <= j < |cs| - 1 && j % 2 == 1 ensures j < |env| && env[j].Exit? {
        assert (j - 2) % 2 == 1;
        assert env[j] == env[2..][j - 2];
      }
    }
  }

  lemma {:induction false} CopyEnds(copy: string, rm: string, env: seq<Outcome>)
    ensures var a := CopyAttempts(copy, rm, env);
      && (a.end.Finished? ==> a.end.code == 0 && a.used == |a.commands| && (a.used - 1) % 2 == 0 && env[a.used - 1] == Exit(0))
      && (a.end == Cancelled ==> a.used == |a.commands| && (a.used - 1) % 2 == 0 && env[a.used - 1] == Interrupt)
      && (a.end == Crashed ==> a.used == |a.commands| && (a.used - 1) % 2 == 1 && env[a.used - 1] == Interrupt)
      && (a.end == Undecided <==> a.used == |env| && a.used == |a.commands| - 1)
    decreases |env|
  {
    if FailedRound(env) {
      CopyEnds(copy, rm, env[2..]);
      var b := CopyAttempts(copy, rm, env[2..]);
      assert CopyAttempts(copy, rm, env) == Then([copy, rm], 2, b);
      if b.end != Undecided {
        assert env[b.used + 1] == env[2..][b.used - 1];
        assert (b.used + 1) % 2 == (b.used - 1) % 2;
      }
    }
  }

  /**
   * The converse of CopyEnds: when every earlier copy failed and every earlier `rm` exited,
   * the outcome at position `j` that stops the loop decides how it ends. Code 0 for a copy
   * finishes the task, a cancellation during a copy cancels it, and one during an `rm`
   * crashes the worker.
   */
  lemma {:induction false} CopyStopsAt(copy: string, rm: string, env: seq<Outcome>, j: nat)
    requires j < |env|
    requires forall i :: 0 <= i < j ==> env[i].Exit? && (i % 2 == 0 ==> env[i].code != 0)
    requires j % 2 == 0 ==> env[j] == Exit(0) || env[j] == Interrupt
    requires j % 2 == 1 ==> env[j] == Interrupt
    ensures var a := CopyAttempts(copy, rm, env);
      && a.used == j + 1 && |a.commands| == j + 1
      && a.end == if env[j] == Exit(0) then Finished(0) else if j % 2 == 0 then Cancelled else Crashed
    decreases j
  {
    if j >= 2 {
      assert FailedRound(env);
      forall i | 0 <= i < j - 2 ensures env[2..][i].Exit? && (i % 2 == 0 ==> env[2..][i].code != 0) {
        assert env[2..][i] == env[i + 2];
        assert (i + 2) % 2 == i % 2;
      }
      assert env[2..][j - 2] == env[j];
      assert (j - 2) % 2 == j % 2;
      CopyStopsAt(copy, rm, env[2..], j - 2);
      assert CopyAttempts(copy, rm, env) == Then([copy, rm], 2, CopyAttempts(copy, rm, env[2..]));
    }
  }

  /** The code of a compensating `rm` never changes what the copy loop does next. */
  lemma RemoveCodeIrrelevant(copy: string, rm: string, c: int, x: int, y: int, rest: seq<Outcome>)
    requires c != 0
    ensures CopyAttempts(copy, rm, [Exit(c), Exit(x)] + rest).commands
         == CopyAttempts(copy, rm, [Exit(c), Exit(y)] + rest).commands
    ensures CopyAttempts(copy, rm, [Exit(c), Exit(x)] + rest).end
         == CopyAttempts(copy, rm, [Exit(c), Exit(y)] + rest).end
  {
    assert ([Exit(c), Exit(x)] + rest)[2..] == rest;
    assert ([Exit(c), Exit(y)] + rest)[2..] == rest;
  }

  /** `retcode = 1; while retcode and retcode != 2: ...` (remove_files.py). */
  method RetryRemoval(command: string, env: seq<Outcome>) returns (a: Attempts)
    ensures a == RemoveAttempts(command, env)
  {
    var retcode := 1;
    var issued: seq<string> := [];
    var i := 0;
    assert env[0..] == env;
    while retcode != 0 && retcode != 2
      invariant i <= |env|
      invariant retcode != 0 && retcode != 2 ==> RemoveAttempts(command, env) == Then(issued, i, RemoveAttempts(command, env[i..]))
      invariant retcode == 0 || retcode == 2 ==> RemoveAttempts(command, env) == Attempts(issued, Finished(retcode), i)
      decreases |env| - i, if retcode != 0 && retcode != 2 then 1 else 0
    {
      issued := issued + [command];
      if i == |env| {
        return Attempts(issued, Undecided, i);
      }
      assert env[i..][1..] == env[i + 1..];
      if env[i].Interrupt? {
        // remove_process.terminate(); interrupted = True
        return Attempts(issued, Cancelled, i + 1);
      }
      retcode := env[i].code;
      i := i + 1;
    }
    a := Attempts(issued, Finished(retcode), i);
  }

  /** The attempts on the outcomes from `i` on, one round unfolded. */
  lemma CopyAttemptsFrom(copy: string, rm: string, env: seq<Outcome>, i: nat)
    requires i <= |env|
    ensures i == |env| ==> CopyAttempts(copy, rm, env[i..]) == Attempts([copy], Undecided, 0)
    ensures i < |env| && env[i] == Exit(0) ==> CopyAttempts(copy, rm, env[i..]) == Attempts([copy], Finished(0), 1)
    ensures i < |env| && env[i].Interrupt? ==> CopyAttempts(copy, rm, env[i..]) == Attempts([copy], Cancelled, 1)
    ensures i + 1 == |env| && env[i].Exit? && env[i].code != 0 ==>
      CopyAttempts(copy, rm, env[i..]) == Attempts([copy, rm], Undecided, 1)
    ensures i + 1 < |env| && env[i].Exit? && env[i].code != 0 && env[i + 1].Interrupt? ==>
      CopyAttempts(copy, rm, env[i..]) == Attempts([copy, rm], Crashed, 2)
    ensures i + 1 < |env| && env[i].Exit? && env[i].code != 0 && env[i + 1].Exit? ==>
      CopyAttempts(copy, rm, env[i..]) == Then([copy, rm], 2, CopyAttempts(copy, rm, env[i + 2..]))
  {
    if i + 1 < |env| {
      assert env[i..][2..] == env[i + 2..];
    }
  }

  lemma ThenThen(c1: seq<string>, n1: nat, c2: seq<string>, n2: nat, a: Attempts)
    ensures Then(c1, n1, Then(c2, n2, a)) == Then(c1 + c2, n1 + n2, a)
  {
    assert c1 + (c2 + a.commands) == (c1 + c2) + a.commands;
  }

  /** `retcode = 1; while retcode:` copy, and after each failure one `gfal-rm` (copy_files.py). */
  method RetryCopy(copy: string, rm: string, env: seq<Outcome>) returns (a: Attempts)
    ensures a == CopyAttempts(copy, rm, env)
  {
    var retcode := 1;
    var issued: seq<string> := [];
    var i := 0;
    assert env[0..] == env;
    while retcode != 0
      invariant i <= |env|
      invariant retcode != 0 ==> CopyAttempts(copy, rm, env) == Then(issued, i, CopyAttempts(copy, rm, env[i..]))
      invariant retcode == 0 ==> CopyAttempts(copy, rm, env) == Attempts(issued, Finished(0), i)
      decreases |env| - i, if retcode != 0 then 1 else 0
    {
      ghost var before := issued;
      CopyAttemptsFrom(copy, rm, env, i);
      issued := issued + [copy];
      if i == |env| {
        return Attempts(issued, Undecided, i);
      }
      if env[i].Interrupt? {
        // copy_process.terminate(); interrupted = True
        return Attempts(issued, Cancelled, i + 1);
      }
      retcode := env[i].code;
      if retcode != 0 {
        issued := issued + [rm];
        if i + 1 == |env| {
          return Attempts(issued, Undecided, i + 1);
        }
        if env[i + 1].Interrupt? {
          return Attempts(issued, Crashed, i + 2);
        }
        assert issued == before + [copy, rm];
        ThenThen(before, i, [copy, rm], 2, CopyAttempts(copy, rm, env[i + 2..]));
        i := i + 2;
      } else {
        assert env[i] == Exit(0);
        assert Then(before, i, Attempts([copy], Finished(0), 1)) == Attempts(issued, Finished(0), i + 1);
        i := i + 1;
      }
    }
    a := Attempts(issued, Finished(0), i);
  }

  method RunPolicy(p: Policy, env: seq<Outcome>) returns (a: Attempts)
    ensures a == Attempt(p, env)
  {
    match p
    case UntilRemoved(command) =>
      a := RetryRemoval(command, env);
    case CopyCompensated(copy, rm) =>
      a := RetryCopy(copy, rm, env);
  }

  /** A dequeued task: skipped when its file name is empty (`if lfn: ... else: continue`). */
  datatype Job = Skip | Run(policy: Policy)

  function Jobs<T>(tasks: seq<T>, job: T -> Job): (js: seq<Job>)
    ensures |js| == |tasks|
    ensures forall i :: 0 <= i < |tasks| ==> js[i] == job(tasks[i])
  {
    seq(|tasks|, i requires 0 <= i < |tasks| => job(tasks[i]))
  }

  /**
   * Why the worker's loop ended: the queue was empty, `interrupted` was set, an exception
   * left the worker, or the outcomes ran out while a command was awaited.
   */
  datatype WorkerEnd = QueueEmpty | Interrupted | WorkerCrashed | OutOfOutcomes

  /** Every spawned command in order, the tasks taken from the queue and those marked done. */
  datatype WorkerRun = WorkerRun(commands: seq<string>, taken: nat, done: nat, end: WorkerEnd)

  function Resume(cmds: seq<string>, taken: nat, done: nat, w: WorkerRun): WorkerRun {
    WorkerRun(cmds + w.commands, taken + w.taken, done + w.done, w.end)
  }

  /**
   * `while not queue.empty() and not interrupted:` take a task; run its policy; call
   * `task_done()` only when the task was not interrupted.
   */
  function Drain(jobs: seq<Job>, env: seq<Outcome>): (w: WorkerRun)
    ensures w.done <= w.taken <= |jobs|
    decreases |jobs|
  {
    if jobs == [] then WorkerRun([], 0, 0, QueueEmpty)
    else if jobs[0].Skip? then Resume([], 1, 0, Drain(jobs[1..], env))
    else
      var a := Attempt(jobs[0].policy, env);
      match a.end
      case Finished(_) => Resume(a.commands, 1, 1, Drain(jobs[1..], env[a.used..]))
      case Cancelled => WorkerRun(a.commands, 1, 0, Interrupted)
      case Crashed => WorkerRun(a.commands, 1, 0, WorkerCrashed)
      case Undecided => WorkerRun(a.commands, 1, 0, OutOfOutcomes)
  }

  /** Number of tasks that are not skipped. */
  function Active(jobs: seq<Job>): (n: nat)
    ensures n <= |jobs|
  {
    if jobs == [] then 0 else (if jobs[0].Run? then 1 else 0) + Active(jobs[1..])
  }

  lemma {:induction false} ActiveAll(jobs: seq<Job>)
    ensures Active(jobs) == |jobs| <==> forall i :: 0 <= i < |jobs| ==> jobs[i].Run?
  {
    if jobs != [] {
      ActiveAll(jobs[1..]);
      if Active(jobs) == |jobs| {
        assert jobs[0].Run? && Active(jobs[1..]) == |jobs| - 1;
        forall i | 0 <= i < |jobs| ensures jobs[i].Run? {
          if i > 0 {
            assert jobs[i] == jobs[1..][i - 1];
          }
        }
      } else if jobs[0].Run? {
        assert Active(jobs[1..]) != |jobs[1..]|;
        var i :| 0 <= i < |jobs[1..]| && !jobs[1..][i].Run?;
        assert !jobs[i + 1].Run?;
      }
    }
  }

  /**
   * The worker stops only when the queue is empty or a task did not finish; every task it
   * took and did not skip was marked done, except the one that did not finish.
   */
  lemma {:induction false} DrainSpec(jobs: seq<Job>, env: seq<Outcome>)
    ensures var w := Drain(jobs, env);
      && (w.end == QueueEmpty ==> w.taken == |jobs| && w.done == Active(jobs))
      && (w.end != QueueEmpty ==> w.taken >= 1 && jobs[w.taken - 1].Run? && w.done == Active(jobs[..w.taken]) - 1)
    decreases |jobs|
  {
    if jobs != [] {
      var w := Drain(jobs, env);
      assert jobs[..1] == [jobs[0]];
      if jobs[0].Skip? {
        DrainSpec(jobs[1..], env);
        var v := Drain(jobs[1..], env);
        if v.end != QueueEmpty {
          assert jobs[1..][..v.taken] == jobs[1..w.taken];
          assert jobs[..w.taken][1..] == jobs[1..w.taken];
        }
      } else {
        var a := Attempt(jobs[0].policy, env);
        if a.end.Finished? {
          DrainSpec(jobs[1..], env[a.used..]);
          var v := Drain(jobs[1..], env[a.used..]);
          if v.end != QueueEmpty {
            assert jobs[1..][..v.taken] == jobs[1..w.taken];
            assert jobs[..w.taken][1..] == jobs[1..w.taken];
          }
        } else {
          assert Active(jobs[..1]) == 1 by {
            assert jobs[..1][1..] == [];
          }
        }
      }
    }
  }

  /**
   * After one worker drains a queue filled with these tasks, `join()` returns exactly when
   * no task was skipped: a skipped task is never marked done.
   */
  lemma JoinNeedsNoSkips(jobs: seq<Job>, env: seq<Outcome>)
    requires Drain(jobs, env).end == QueueEmpty
    ensures |jobs| - Drain(jobs, env).done == 0 <==> forall i :: 0 <= i < |jobs| ==> jobs[i].Run?
  {
    DrainSpec(jobs, env);
    ActiveAll(jobs);
  }

  /** The command a policy spawns first. */
  function FirstCommand(p: Policy): string {
    match p
    case UntilRemoved(command) => command
    case CopyCompensated(copy, _) => copy
  }

  function Successes(n: nat): (env: seq<Outcome>)
    ensures |env| == n && forall i :: 0 <= i < n ==> env[i] == Exit(0)
  {
    seq(n, _ => Exit(0))
  }

  /**
   * When every command succeeds at once and no task is skipped, the worker spawns each
   * task's command once, in queue order, and marks every task done.
   */
  lemma {:induction false} DrainAllSucceed(jobs: seq<Job>)
    requires forall i :: 0 <= i < |jobs| ==> jobs[i].Run?
    ensures Drain(jobs, Successes(|jobs|))
         == WorkerRun(seq(|jobs|, i requires 0 <= i < |jobs| => FirstCommand(jobs[i].policy)), |jobs|, |jobs|, QueueEmpty)
    decreases |jobs|
  {
    if jobs != [] {
      var env := Successes(|jobs|);
      var p := jobs[0].policy;
      assert Attempt(p, env) == Attempts([FirstCommand(p)], Finished(0), 1);
      assert env[1..] == Successes(|jobs| - 1);
      DrainAllSucceed(jobs[1..]);
    }
  }

  lemma ResumeResume(c1: seq<string>, t1: nat, d1: nat, c2: seq<string>, t2: nat, d2: nat, w: WorkerRun)
    ensures Resume(c1, t1, d1, Resume(c2, t2, d2, w)) == Resume(c1 + c2, t1 + t2, d1 + d2, w)
  {
    assert c1 + (c2 + w.commands) == (c1 + c2) + w.commands;
  }

  /** One step of `Drain`: what the first task contributes and where the rest continues. */
  lemma DrainFirst(js: seq<Job>, rest: seq<Outcome>, a: Attempts)
    requires js != [] && (js[0].Run? ==> a == Attempt(js[0].policy, rest))
    ensures js[0].Skip? ==> Drain(js, rest) == Resume([], 1, 0, Drain(js[1..], rest))
    ensures js[0].Run? && a.end.Finished? ==> Drain(js, rest) == Resume(a.commands, 1, 1, Drain(js[1..], rest[a.used..]))
    ensures js[0].Run? && a.end == Cancelled ==> Drain(js, rest) == WorkerRun(a.commands, 1, 0, Interrupted)
    ensures js[0].Run? && a.end == Crashed ==> Drain(js, rest) == WorkerRun(a.commands, 1, 0, WorkerCrashed)
    ensures js[0].Run? && a.end == Undecided ==> Drain(js, rest) == WorkerRun(a.commands, 1, 0, OutOfOutcomes)
  {
  }

  /** The worker's progress after serving task `taken`, in each of the ways that task can end. */
  lemma WorkerStep(jobs: seq<Job>, env: seq<Outcome>, commands: seq<string>, taken: nat, done: nat,
                   rest: seq<Outcome>, a: Attempts)
    requires taken < |jobs|
    requires Drain(jobs, env) == Resume(commands, taken, done, Drain(jobs[taken..], rest))
    requires jobs[taken].Run? ==> a == Attempt(jobs[taken].policy, rest)
    ensures jobs[taken].Skip? ==>
      Drain(jobs, env) == Resume(commands, taken + 1, done, Drain(jobs[taken + 1..], rest))
    ensures jobs[taken].Run? && a.end.Finished? ==>
      Drain(jobs, env) == Resume(commands + a.commands, taken + 1, done + 1, Drain(jobs[taken + 1..], rest[a.used..]))
    ensures jobs[taken].Run? && a.end == Cancelled ==>
      Drain(jobs, env) == WorkerRun(commands + a.commands, taken + 1, done, Interrupted)
    ensures jobs[taken].Run? && a.end == Crashed ==>
      Drain(jobs, env) == WorkerRun(commands + a.commands, taken + 1, done, WorkerCrashed)
    ensures jobs[taken].Run? && a.end == Undecided ==>
      Drain(jobs, env) == WorkerRun(commands + a.commands, taken + 1, done, OutOfOutcomes)
  {
    var js := jobs[taken..];
    assert js[1..] == jobs[taken + 1..];
    DrainFirst(js, rest, a);
    if js[0].Skip? {
      ResumeResume(commands, taken, done, [], 1, 0, Drain(js[1..], rest));
      assert commands + [] == commands;
    } else if a.end.Finished? {
      ResumeResume(commands, taken, done, a.commands, 1, 1, Drain(js[1..], rest[a.used..]));
    }
  }

  /**
   * One pass of the worker's loop body: take the oldest task, run its policy unless it is
   * skipped, and mark it done when it finished.
   */
  method Serve<T>(queue: TaskQueue<T>, job: T -> Job, rest: seq<Outcome>) returns (j: Job, a: Attempts)
    requires !queue.Empty() && |queue.pending| <= queue.unfinished
    modifies queue
    ensures j == job(old(queue.pending)[0]) && queue.pending == old(queue.pending)[1..]
    ensures j.Run? ==> a == Attempt(j.policy, rest)
    ensures queue.unfinished == old(queue.unfinished) - (if j.Run? && a.end.Finished? then 1 else 0)
  {
    var task := queue.Get();
    j := job(task);
    a := Attempts([], Undecided, 0);
    if j.Run? {
      a := RunPolicy(j.policy, rest);
      if a.end.Finished? {
        queue.TaskDone();
      }
    }
  }

  /**
   * One worker over `queue` (the loop of `execute_remove` and of both `execute_copy`s):
   * `job` builds a task's policy from the dequeued item.
   */
  method ExecuteWorker<T>(queue: TaskQueue<T>, job: T -> Job, env: seq<Outcome>) returns (w: WorkerRun)
    requires |queue.pending| <= queue.unfinished
    modifies queue
    ensures w == Drain(Jobs(old(queue.pending), job), env)
    ensures queue.pending == old(queue.pending)[w.taken..]
    ensures queue.unfinished == old(queue.unfinished) - w.done
  {
    ghost var jobs := Jobs(queue.pending, job);
    var interrupted := false;
    var commands: seq<string> := [];
    var taken: nat := 0;
    var done: nat := 0;
    var rest := env;
    assert jobs[0..] == jobs;
    while !queue.Empty() && !interrupted
      invariant done <= taken <= |jobs|
      invariant queue.pending == old(queue.pending)[taken..]
      invariant queue.unfinished == old(queue.unfinished) - done
      invariant !interrupted ==> Drain(jobs, env) == Resume(commands, taken, done, Drain(jobs[taken..], rest))
      invariant interrupted ==> Drain(jobs, env) == WorkerRun(commands, taken, done, Interrupted)
      decreases |queue.pending|
    {
      assert old(queue.pending)[taken + 1..] == queue.pending[1..];
      var j, a := Serve(queue, job, rest);
      WorkerStep(jobs, env, commands, taken, done, rest, a);
      if j.Skip? {
        taken := taken + 1;
      } else if a.end.Finished? {
        commands := commands + a.commands;
        taken := taken + 1;
        done := done + 1;
        rest := rest[a.used..];
      } else if a.end == Cancelled {
        // interrupted = True: the task is not marked done
        commands := commands + a.commands;
        taken := taken + 1;
        interrupted := true;
      } else {
        var end := if a.end == Crashed then WorkerCrashed else OutOfOutcomes;
        return WorkerRun(commands + a.commands, taken + 1, done, end);
      }
    }
    if interrupted {
      w := WorkerRun(commands, taken, done, Interrupted);
    } else {
      assert jobs[taken..] == [];
      w := WorkerRun(commands, taken, done, QueueEmpty);
    }
  }
}
