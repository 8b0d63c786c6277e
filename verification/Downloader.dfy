/** How downloads complete: one worker takes jobs from a queue, and the coroutine that awaits a job is
    continued either by itself or by the worker. Every step below is one access to shared state, so the
    runs are all interleavings of the worker with one awaiter for each job. */
module Downloader {
  datatype Holder = Free | HeldByAwaiter | HeldByWorker

  /** Where the awaiter of a job stands: before `await_ready`, after it said no, holding the mutex before
      and after the test of `await_suspend`, suspended, or continued. */
  datatype Awaiter = Fresh | Checked | Locked | Parked | Continuing | Suspended | Continued

  datatype Job = Job(
    files: nat, processed: nat, complete: bool, resumable: bool, mutex: Holder, awaiter: Awaiter, continuations: nat)

  /** Where the worker stands: between jobs, at the files of a job, holding the job's mutex before and after
      `complete` is set and after the continuation, or at its end. */
  datatype Worker =
    Idle | Downloading(job: nat) | Holding(job: nat) | Completing(job: nat) | Releasing(job: nat) | Ended

  /** Jobs are numbered in the order in which they were submitted. */
  datatype State = State(jobs: seq<Job>, queue: seq<nat>, running: bool, worker: Worker, started: seq<nat>)

  const INITIAL: State := State([], [], true, Idle, [])

  /** What an awaiter does: `await_ready`, and in `await_suspend` taking the mutex, the test, and giving it
      back. */
  datatype AwaiterMove = AskReady | Lock | Test | Unlock

  /** What the worker does with a job. */
  datatype WorkerMove = DownloadFile | LockJob | SetComplete | Continue | UnlockJob

  datatype Step =
    | Submit(files: nat)
    | Stop
    | TakeJob
    | Finish
    | AwaiterStep(job: nat, awaiterMove: AwaiterMove)
    | WorkerStep(workerMove: WorkerMove)

  predicate Busy(w: Worker) {
    w.Downloading? || w.Holding? || w.Completing? || w.Releasing?
  }

  /** Whether a step can be taken. Only locking a mutex and waiting for a job can be held up. */
  predicate Enabled(s: State, step: Step) {
    match step
    case Submit(_) => true
    case Stop => s.running
    case TakeJob => s.worker == Idle && s.running && s.queue != []
    case Finish => s.worker == Idle && !s.running
    case AwaiterStep(j, move) => j < |s.jobs| && AwaiterCan(s.jobs[j], move)
    case WorkerStep(move) =>
      Busy(s.worker) && s.worker.job < |s.jobs| && WorkerCan(s.worker, s.jobs[s.worker.job], move)
  }

  predicate AwaiterCan(job: Job, move: AwaiterMove) {
    match move
    case AskReady => job.awaiter == Fresh
    case Lock => job.awaiter == Checked && job.mutex == Free
    case Test => job.awaiter == Locked
    case Unlock => job.awaiter in {Parked, Continuing}
  }

  predicate WorkerCan(w: Worker, job: Job, move: WorkerMove) {
    match move
    case DownloadFile => w.Downloading? && job.processed < job.files
    case LockJob => w.Downloading? && job.processed == job.files && job.mutex == Free
    case SetComplete => w.Holding?
    case Continue => w.Completing?
    case UnlockJob => w.Releasing?
  }

  /** The awaiter's side of a job. */
  function AwaiterMoves(job: Job, move: AwaiterMove): Job {
    match move
    case AskReady =>
      if job.complete then job.(awaiter := Continued, continuations := job.continuations + 1)
      else job.(awaiter := Checked)
    case Lock => job.(awaiter := Locked, mutex := HeldByAwaiter)
    case Test =>
      if job.complete then job.(awaiter := Continuing, continuations := job.continuations + 1)
      else job.(awaiter := Parked, resumable := true)
    case Unlock =>
      job.(awaiter := if job.awaiter == Parked then Suspended else Continued, mutex := Free)
  }

  /** The worker's side of a job. */
  function WorkerMoves(job: Job, move: WorkerMove): Job {
    match move
    case DownloadFile => job.(processed := job.processed + 1)
    case LockJob => job.(mutex := HeldByWorker)
    case SetComplete => job.(complete := true)
    case Continue =>
      if job.resumable then job.(awaiter := Continued, continuations := job.continuations + 1) else job
    case UnlockJob => job.(mutex := Free)
  }

  function NextWorker(j: nat, move: WorkerMove): Worker {
    match move
    case DownloadFile => Downloading(j)
    case LockJob => Holding(j)
    case SetComplete => Completing(j)
    case Continue => Releasing(j)
    case UnlockJob => Idle
  }

  function Apply(s: State, step: Step): State
    requires Enabled(s, step)
  {
    match step
    case Submit(files) =>
      s.(jobs := s.jobs + [Job(files, 0, false, false, Free, Fresh, 0)], queue := s.queue + [|s.jobs|])
    case Stop => s.(running := false)
    case TakeJob => s.(queue := s.queue[1..], worker := Downloading(s.queue[0]), started := s.started + [s.queue[0]])
    case Finish => s.(worker := Ended)
    case AwaiterStep(j, move) => s.(jobs := s.jobs[j := AwaiterMoves(s.jobs[j], move)])
    case WorkerStep(move) =>
      var j := s.worker.job;
      s.(jobs := s.jobs[j := WorkerMoves(s.jobs[j], move)], worker := NextWorker(j, move))
  }

  predicate IsRun(steps: seq<Step>)
    decreases |steps|, 0
  {
    steps == [] ||
    var prefix := steps[..|steps| - 1];
    IsRun(prefix) && Enabled(After(prefix), steps[|steps| - 1])
  }

  function After(steps: seq<Step>): State
    requires IsRun(steps)
    decreases |steps|, 1
  {
    if steps == [] then INITIAL else Apply(After(steps[..|steps| - 1]), steps[|steps| - 1])
  }

  /** Whether the worker is at job `j`. */
  predicate At(w: Worker, j: nat) {
    Busy(w) && w.job == j
  }

  /** What holds of a job in itself. */
  predicate JobOk(job: Job, w: Worker, j: nat) {
    && job.processed <= job.files
    && (job.complete ==> job.processed == job.files)
    && (job.mutex == HeldByAwaiter <==> job.awaiter in {Locked, Parked, Continuing})
    && (job.mutex == HeldByWorker <==> At(w, j) && !w.Downloading?)
    && (At(w, j) ==>
          && (job.complete <==> w.Completing? || w.Releasing?)
          && (!w.Downloading? ==> job.processed == job.files))
    && job.continuations == (if job.awaiter in {Continuing, Continued} then 1 else 0)
    && (job.continuations == 1 ==> job.complete)
    && (job.resumable ==> job.awaiter in {Parked, Suspended, Continued})
    && (job.awaiter in {Parked, Suspended} ==> job.resumable)
    && (job.awaiter == Continued && job.resumable ==> !At(w, j) || w.Releasing?)
    && (job.awaiter in {Parked, Suspended} && job.complete ==> At(w, j) && w.Completing?)
  }

  /** Jobs that were not started are untouched, and all started ones but the last are complete. */
  predicate Waiting(s: State, j: nat)
    requires j < |s.jobs|
  {
    && (j >= |s.started| ==> s.jobs[j].processed == 0 && !s.jobs[j].complete && !At(s.worker, j))
    && (j < |s.started| ==> s.jobs[j].complete || At(s.worker, j))
  }

  predicate Inv(s: State) {
    && |s.started| + |s.queue| == |s.jobs|
    && (forall i :: 0 <= i < |s.started| ==> s.started[i] == i)
    && (forall i :: 0 <= i < |s.queue| ==> s.queue[i] == |s.started| + i)
    && (Busy(s.worker) ==> s.worker.job == |s.started| - 1)
    && (forall j :: 0 <= j < |s.jobs| ==> JobOk(s.jobs[j], s.worker, j) && Waiting(s, j))
  }

  lemma SubmitKeeps(s: State, files: nat)
    requires Inv(s)
    ensures Inv(Apply(s, Submit(files)))
  {
    var s' := Apply(s, Submit(files));
    forall j | 0 <= j < |s'.jobs| ensures JobOk(s'.jobs[j], s'.worker, j) && Waiting(s', j) {
      if j < |s.jobs| { assert JobOk(s.jobs[j], s.worker, j) && Waiting(s, j); }
    }
  }

  lemma AwaiterKeeps(s: State, step: Step)
    requires Inv(s) && Enabled(s, step) && step.AwaiterStep?
    ensures Inv(Apply(s, step))
  {
    var s' := Apply(s, step);
    forall j | 0 <= j < |s'.jobs| ensures JobOk(s'.jobs[j], s'.worker, j) && Waiting(s', j) {
      assert JobOk(s.jobs[j], s.worker, j) && Waiting(s, j);
    }
  }

  lemma WorkerKeeps(s: State, step: Step)
    requires Inv(s) && Enabled(s, step) && step.WorkerStep?
    ensures Inv(Apply(s, step))
  {
    var s' := Apply(s, step);
    forall j | 0 <= j < |s'.jobs| ensures JobOk(s'.jobs[j], s'.worker, j) && Waiting(s', j) {
      assert JobOk(s.jobs[j], s.worker, j) && Waiting(s, j);
    }
  }

  lemma TakeKeeps(s: State, step: Step)
    requires Inv(s) && Enabled(s, step) && (step.TakeJob? || step.Finish? || step.Stop?)
    ensures Inv(Apply(s, step))
  {
    var s' := Apply(s, step);
    forall j | 0 <= j < |s'.jobs| ensures JobOk(s'.jobs[j], s'.worker, j) && Waiting(s', j) {
      assert JobOk(s.jobs[j], s.worker, j) && Waiting(s, j);
    }
  }

  lemma StepKeeps(s: State, step: Step)
    requires Inv(s) && Enabled(s, step)
    ensures Inv(Apply(s, step))
  {
    match step
    case Submit(files) => SubmitKeeps(s, files);
    case AwaiterStep(_, _) => AwaiterKeeps(s, step);
    case WorkerStep(_) => WorkerKeeps(s, step);
    case _ => TakeKeeps(s, step);
  }

  lemma {:induction false} EveryRunKeeps(steps: seq<Step>)
    requires IsRun(steps)
    ensures Inv(After(steps))
  {
    if steps != [] {
      EveryRunKeeps(steps[..|steps| - 1]);
      StepKeeps(After(steps[..|steps| - 1]), steps[|steps| - 1]);
    }
  }

  /** In every run, whoever awaits a job is continued at most once, and not before all its files are
      processed. */
  lemma ContinuedOnceAfterAllFiles(steps: seq<Step>, j: nat)
    requires IsRun(steps) && j < |After(steps).jobs|
    ensures var job := After(steps).jobs[j];
      job.continuations <= 1 && (job.continuations == 1 ==> job.complete && job.processed == job.files)
  {
    EveryRunKeeps(steps);
    assert JobOk(After(steps).jobs[j], After(steps).worker, j);
  }

  /** No wake-up is lost: once the awaiter and the worker are both through with a job, the awaiter has been
      continued exactly once. */
  lemma NoLostWakeUp(steps: seq<Step>, j: nat)
    requires IsRun(steps) && j < |After(steps).jobs|
    requires var s := After(steps);
      s.jobs[j].awaiter in {Suspended, Continued} && s.jobs[j].complete && !At(s.worker, j)
    ensures After(steps).jobs[j].continuations == 1
  {
    EveryRunKeeps(steps);
    assert JobOk(After(steps).jobs[j], After(steps).worker, j);
  }

  /** Jobs are started in the order in which they were submitted, and one is through before the next. */
  lemma InOrder(steps: seq<Step>, i: nat)
    requires IsRun(steps) && i < |After(steps).started|
    ensures var s := After(steps);
      && |s.started| <= |s.jobs| && s.started[i] == i
      && (i + 1 < |s.started| ==> s.jobs[i].complete && s.jobs[i].processed == s.jobs[i].files)
  {
    EveryRunKeeps(steps);
    var s := After(steps);
    assert JobOk(s.jobs[i], s.worker, i) && Waiting(s, i);
    assert Waiting(s, |s.started| - 1);
  }

  /** The numbers of files submitted, in order. */
  function Submissions(steps: seq<Step>): seq<nat> {
    if steps == [] then []
    else
      var rest, last := Submissions(steps[..|steps| - 1]), steps[|steps| - 1];
      if last.Submit? then rest + [last.files] else rest
  }

  /** For each file downloaded in a run the job it belongs to, in order. */
  function Fetched(steps: seq<Step>): seq<nat>
    requires IsRun(steps)
  {
    if steps == [] then []
    else
      var prefix, last := steps[..|steps| - 1], steps[|steps| - 1];
      if last == WorkerStep(DownloadFile) then Fetched(prefix) + [After(prefix).worker.job] else Fetched(prefix)
  }

  function Times(n: nat, j: nat): seq<nat> {
    seq(n, _ => j)
  }

  /** The files of the first `n` of these submissions, one submission after the other. */
  function FilesOf(submitted: seq<nat>, n: nat): seq<nat>
    requires n <= |submitted|
  {
    if n == 0 then [] else FilesOf(submitted, n - 1) + Times(submitted[n - 1], n - 1)
  }

  lemma {:induction false} FilesOfMore(submitted: seq<nat>, files: nat, n: nat)
    requires n <= |submitted|
    ensures FilesOf(submitted + [files], n) == FilesOf(submitted, n)
  {
    if n > 0 { FilesOfMore(submitted, files, n - 1); }
  }

  lemma {:induction false} FilesOfFirst(submitted: seq<nat>, i: nat, n: nat)
    requires i <= n <= |submitted|
    ensures FilesOf(submitted, i) <= FilesOf(submitted, n)
  {
    if i < n { FilesOfFirst(submitted, i, n - 1); }
  }

  ghost predicate SubmittedAs(s: State, submitted: seq<nat>) {
    |s.jobs| == |submitted| && forall j :: 0 <= j < |submitted| ==> s.jobs[j].files == submitted[j]
  }

  lemma SubmittedNext(s: State, step: Step, submitted: seq<nat>)
    requires Enabled(s, step) && SubmittedAs(s, submitted)
    ensures SubmittedAs(Apply(s, step), if step.Submit? then submitted + [step.files] else submitted)
  {
  }

  /** In every run a job has the files it was submitted with. */
  lemma {:induction false} FilesAsSubmitted(steps: seq<Step>)
    requires IsRun(steps)
    ensures var s := After(steps);
      |s.jobs| == |Submissions(steps)| &&
      forall j :: 0 <= j < |s.jobs| ==> s.jobs[j].files == Submissions(steps)[j]
  {
    if steps != [] {
      FilesAsSubmitted(steps[..|steps| - 1]);
      SubmittedNext(After(steps[..|steps| - 1]), steps[|steps| - 1], Submissions(steps[..|steps| - 1]));
    }
  }

  /** What the worker has downloaded: all of the jobs before its own, and so much of its own. */
  ghost predicate FetchedTo(s: State, submitted: seq<nat>, fetched: seq<nat>)
    requires Inv(s) && |s.jobs| == |submitted|
  {
    if Busy(s.worker) then
      var j := s.worker.job;
      fetched == FilesOf(submitted, j) + Times(s.jobs[j].processed, j)
    else fetched == FilesOf(submitted, |s.started|)
  }

  lemma FetchedNext(s: State, step: Step, submitted: seq<nat>, fetched: seq<nat>)
    requires Inv(s) && Enabled(s, step) && SubmittedAs(s, submitted) && FetchedTo(s, submitted, fetched)
    requires !step.Submit?
    ensures Inv(Apply(s, step)) && |Apply(s, step).jobs| == |submitted|
    ensures FetchedTo(Apply(s, step), submitted,
                      if step == WorkerStep(DownloadFile) then fetched + [s.worker.job] else fetched)
  {
    StepKeeps(s, step);
    if step.WorkerStep? {
      var j := s.worker.job;
      assert JobOk(s.jobs[j], s.worker, j);
      assert Times(s.jobs[j].processed + 1, j) == Times(s.jobs[j].processed, j) + [j];
    } else if step.TakeJob? {
      assert Waiting(s, |s.started|) && Times(0, |s.started|) == [];
    } else if step.AwaiterStep? && Busy(s.worker) {
      assert AwaiterMoves(s.jobs[step.job], step.awaiterMove).processed == s.jobs[step.job].processed;
    }
  }

  lemma FetchedSubmit(s: State, files: nat, submitted: seq<nat>, fetched: seq<nat>)
    requires Inv(s) && SubmittedAs(s, submitted) && FetchedTo(s, submitted, fetched)
    ensures Inv(Apply(s, Submit(files)))
    ensures FetchedTo(Apply(s, Submit(files)), submitted + [files], fetched)
  {
    SubmitKeeps(s, files);
    FilesOfMore(submitted, files, if Busy(s.worker) then s.worker.job else |s.started|);
  }

  lemma {:induction false} EveryRunFetches(steps: seq<Step>)
    requires IsRun(steps)
    ensures Inv(After(steps)) && SubmittedAs(After(steps), Submissions(steps))
    ensures FetchedTo(After(steps), Submissions(steps), Fetched(steps))
  {
    EveryRunKeeps(steps);
    FilesAsSubmitted(steps);
    if steps != [] {
      var prefix, step := steps[..|steps| - 1], steps[|steps| - 1];
      EveryRunFetches(prefix);
      if step.Submit? {
        FetchedSubmit(After(prefix), step.files, Submissions(prefix), Fetched(prefix));
      } else {
        FetchedNext(After(prefix), step, Submissions(prefix), Fetched(prefix));
      }
    }
  }

  lemma TimesFirst(a: seq<nat>, m: nat, n: nat, j: nat)
    requires m <= n
    ensures a + Times(m, j) <= a + Times(n, j)
  {
  }

  /** The number of jobs started, which is how far the files downloaded can reach. */
  function Reached(s: State): nat {
    if Busy(s.worker) then s.worker.job + 1 else |s.started|
  }

  lemma FetchedWithin(s: State, submitted: seq<nat>, fetched: seq<nat>)
    requires Inv(s) && SubmittedAs(s, submitted) && FetchedTo(s, submitted, fetched)
    ensures Reached(s) <= |submitted| && fetched <= FilesOf(submitted, Reached(s))
  {
    if Busy(s.worker) {
      var i := s.worker.job;
      assert JobOk(s.jobs[i], s.worker, i);
      TimesFirst(FilesOf(submitted, i), s.jobs[i].processed, submitted[i], i);
    }
  }

  lemma CompleteIsFetched(s: State, submitted: seq<nat>, fetched: seq<nat>, j: nat)
    requires Inv(s) && SubmittedAs(s, submitted) && FetchedTo(s, submitted, fetched)
    requires j < |s.jobs| && s.jobs[j].complete
    ensures FilesOf(submitted, j + 1) <= fetched
  {
    assert JobOk(s.jobs[j], s.worker, j) && Waiting(s, j);
    if !At(s.worker, j) {
      FilesOfFirst(submitted, j + 1, if Busy(s.worker) then s.worker.job else |s.started|);
    }
  }

  /** In every run the files downloaded are a first part of all files in the order of their submission, and
      the files of a complete job are among them, as are those of the jobs submitted before it. */
  lemma FetchedInOrder(steps: seq<Step>, j: nat)
    requires IsRun(steps)
    ensures Fetched(steps) <= FilesOf(Submissions(steps), |Submissions(steps)|)
    ensures j < |After(steps).jobs| && After(steps).jobs[j].complete ==>
              j < |Submissions(steps)| && FilesOf(Submissions(steps), j + 1) <= Fetched(steps)
  {
    hide *;
    EveryRunFetches(steps);
    var s, submitted := After(steps), Submissions(steps);
    FetchedWithin(s, submitted, Fetched(steps));
    FilesOfFirst(submitted, Reached(s), |submitted|);
    FilesAsSubmitted(steps);
    if j < |s.jobs| && s.jobs[j].complete {
      CompleteIsFetched(s, submitted, Fetched(steps), j);
    }
  }

  lemma {:induction false} PrefixIsRun(steps: seq<Step>, n: nat)
    requires IsRun(steps) && n <= |steps|
    ensures IsRun(steps[..n])
  {
    if n < |steps| {
      assert steps[..|steps| - 1][..n] == steps[..n];
      PrefixIsRun(steps[..|steps| - 1], n);
    } else {
      assert steps[..n] == steps;
    }
  }

  lemma {:induction false} StartsNoneOnceStopped(steps: seq<Step>, n: nat)
    requires IsRun(steps) && n <= |steps| && IsRun(steps[..n]) && !After(steps[..n]).running
    ensures !After(steps).running && After(steps).started == After(steps[..n]).started
  {
    if n < |steps| {
      assert steps[..|steps| - 1][..n] == steps[..n];
      StartsNoneOnceStopped(steps[..|steps| - 1], n);
    } else {
      assert steps[..n] == steps;
    }
  }

  lemma {:induction false} RunningUntilStopped(steps: seq<Step>)
    requires IsRun(steps)
    ensures After(steps).running <==> Stop !in steps
  {
    if steps != [] {
      var prefix, last := steps[..|steps| - 1], steps[|steps| - 1];
      assert steps == prefix + [last];
      RunningUntilStopped(prefix);
    }
  }

  /** The worker ends only when it has been stopped. From then on no job is started: those still queued are
      never complete, and whoever awaits one of them is never continued. */
  lemma StoppedLeavesQueued(steps: seq<Step>, n: nat, j: nat)
    requires IsRun(steps) && n <= |steps|
    ensures IsRun(steps[..n])
    ensures After(steps).worker == Ended ==> Stop in steps
    ensures Stop in steps[..n] && |After(steps[..n]).started| <= j < |After(steps).jobs| ==>
      var job := After(steps).jobs[j]; job.processed == 0 && !job.complete && job.continuations == 0
  {
    PrefixIsRun(steps, n);
    EndsOnlyStopped(steps);
    EveryRunKeeps(steps);
    RunningUntilStopped(steps);
    RunningUntilStopped(steps[..n]);
    var s := After(steps);
    if Stop in steps[..n] && |After(steps[..n]).started| <= j < |s.jobs| {
      StartsNoneOnceStopped(steps, n);
      assert JobOk(s.jobs[j], s.worker, j) && Waiting(s, j);
    }
  }

  lemma {:induction false} EndsOnlyStopped(steps: seq<Step>)
    requires IsRun(steps)
    ensures After(steps).worker == Ended ==> !After(steps).running
  {
    if steps != [] { EndsOnlyStopped(steps[..|steps| - 1]); }
  }

  /** The worker is never stuck at a job: it can take a step, or the awaiter holds the job's mutex and can
      take one. Each such step brings the job nearer to completion. */
  lemma NeverStuck(steps: seq<Step>) returns (step: Step)
    requires IsRun(steps) && Busy(After(steps).worker)
    ensures var s := After(steps);
      && s.worker.job < |s.jobs| && Enabled(s, step) && (step.WorkerStep? || step.AwaiterStep?)
      && Distance(Apply(s, step), s.worker.job) < Distance(s, s.worker.job)
  {
    EveryRunKeeps(steps);
    var s := After(steps);
    var j := s.worker.job;
    var job := s.jobs[j];
    assert JobOk(job, s.worker, j);
    match s.worker
    case Downloading(_) =>
      if job.processed < job.files { step := WorkerStep(DownloadFile); }
      else if job.mutex == Free { step := WorkerStep(LockJob); }
      else { step := AwaiterStep(j, if job.awaiter == Locked then Test else Unlock); }
    case Holding(_) => step := WorkerStep(SetComplete);
    case Completing(_) => step := WorkerStep(Continue);
    case Releasing(_) => step := WorkerStep(UnlockJob);
  }

  /** Nor is it stuck between jobs: it takes the first job of the queue, or it comes to its end when it has been
      stopped. It waits exactly while it has not been stopped and nothing is queued. */
  lemma NeverStuckIdle(steps: seq<Step>)
    requires IsRun(steps) && After(steps).worker == Idle
    ensures var s := After(steps);
      && (Stop !in steps && s.queue != [] ==>
            Enabled(s, TakeJob) && Apply(s, TakeJob).worker == Downloading(s.queue[0]) && s.queue[0] == |s.started|)
      && (Stop in steps ==> Enabled(s, Finish) && Apply(s, Finish).worker == Ended)
      && (Stop !in steps && s.queue == [] ==> !Enabled(s, TakeJob) && !Enabled(s, Finish))
  {
    EveryRunKeeps(steps);
    RunningUntilStopped(steps);
  }

  /** How far an awaiter still has to go. */
  function Ahead(awaiter: Awaiter): nat {
    match awaiter
    case Fresh => 4
    case Checked => 3
    case Locked => 2
    case Parked => 1
    case Continuing => 1
    case Suspended => 0
    case Continued => 0
  }

  /** An awaiter that is not through can go on, unless the worker holds the mutex, which it gives back in at
      most three steps. */
  lemma AwaiterNeverStuck(steps: seq<Step>, j: nat) returns (step: Step)
    requires IsRun(steps) && j < |After(steps).jobs| && Ahead(After(steps).jobs[j].awaiter) > 0
    ensures var s := After(steps);
      Enabled(s, step) &&
      if s.jobs[j].mutex == HeldByWorker && s.jobs[j].awaiter == Checked
      then step.WorkerStep? && Distance(Apply(s, step), j) < Distance(s, j) <= 3
      else step.AwaiterStep? && step.job == j && Ahead(Apply(s, step).jobs[j].awaiter) < Ahead(s.jobs[j].awaiter)
  {
    EveryRunKeeps(steps);
    var s := After(steps);
    assert JobOk(s.jobs[j], s.worker, j);
    if s.jobs[j].mutex == HeldByWorker && s.jobs[j].awaiter == Checked {
      step := NeverStuck(steps);
    } else {
      match s.jobs[j].awaiter
      case Fresh => step := AwaiterStep(j, AskReady);
      case Checked => step := AwaiterStep(j, Lock);
      case Locked => step := AwaiterStep(j, Test);
      case _ => step := AwaiterStep(j, Unlock);
    }
  }

  /** A job is awaited once, and the awaiter asks first whether it is complete. */
  lemma {:induction false} AsksFirst(steps: seq<Step>, j: nat)
    requires IsRun(steps) && j < |After(steps).jobs|
    ensures After(steps).jobs[j].awaiter == Fresh <==> AwaiterStep(j, AskReady) !in steps
  {
    hide Inv, Enabled;
    var prefix, last := steps[..|steps| - 1], steps[|steps| - 1];
    assert steps == prefix + [last];
    EveryRunKeeps(prefix);
    if j < |After(prefix).jobs| {
      AsksFirst(prefix, j);
      StaysFresh(After(prefix), last, j);
    } else {
      NotBeforeSubmission(prefix, j);
      SubmittedFresh(After(prefix), last, j);
    }
  }

  lemma StaysFresh(s: State, step: Step, j: nat)
    requires Inv(s) && Enabled(s, step) && j < |s.jobs|
    ensures j < |Apply(s, step).jobs|
    ensures Apply(s, step).jobs[j].awaiter == Fresh <==>
              s.jobs[j].awaiter == Fresh && step != AwaiterStep(j, AskReady)
  {
    assert JobOk(s.jobs[j], s.worker, j);
  }

  lemma SubmittedFresh(s: State, step: Step, j: nat)
    requires Enabled(s, step) && |s.jobs| <= j < |Apply(s, step).jobs|
    ensures Apply(s, step).jobs[j].awaiter == Fresh && step.Submit?
  {
  }

  lemma {:induction false} NotBeforeSubmission(steps: seq<Step>, j: nat)
    requires IsRun(steps) && |After(steps).jobs| <= j
    ensures AwaiterStep(j, AskReady) !in steps
  {
    if steps != [] {
      var prefix, last := steps[..|steps| - 1], steps[|steps| - 1];
      assert steps == prefix + [last];
      NotBeforeSubmission(prefix, j);
    }
  }

  /** How many steps of the worker and of an awaiter that holds the mutex are still to come for a job. */
  function Distance(s: State, j: nat): nat
    requires j < |s.jobs|
  {
    var job := s.jobs[j];
    (if job.files > job.processed then job.files - job.processed else 0) * 3
    + (if !At(s.worker, j) then 0
       else if s.worker.Downloading? then 8 else if s.worker.Holding? then 3 else if s.worker.Completing? then 2 else 1)
    + (if job.awaiter == Locked then 2 else if job.awaiter in {Parked, Continuing} then 1 else 0)
  }
}
