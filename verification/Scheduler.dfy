/** The cooperative scheduler: tasks that suspend until a time and a frame, run until none of them is ready. */
module Scheduler {
  const FRAMES: int := 0x1_0000_0000
  const LAST_TIME: int := 0x7FFF_FFFF_FFFF_FFFF
  const FIRST_TIME: int := -0x8000_0000_0000_0000

  type Frame = f: int | 0 <= f < FRAMES
  type Time = t: int | FIRST_TIME <= t <= LAST_TIME

  datatype WaitState = WaitState(time: Time, frame: Frame)

  const SUSPEND: WaitState := WaitState(LAST_TIME, FRAMES - 1)

  /** `operator<=`: frames are compared by the sign of their difference, so that they may wrap around. */
  predicate Passed(wait: WaitState, now: WaitState) {
    wait.time <= now.time &&
    var difference := (wait.frame - now.frame) % FRAMES;
    difference == 0 || difference >= FRAMES / 2
  }

  /** A wait has passed for as long as the counter has gone on by no more than half of its range. */
  lemma PassedForHalf(wait: WaitState, now: WaitState)
    ensures Passed(wait, now) <==>
      wait.time <= now.time &&
      exists k :: 0 <= k <= 0x8000_0000 && FrameAfter(wait.frame, k) == now.frame
  {
    var k := (now.frame - wait.frame) % 0x1_0000_0000;
    assert FrameAfter(wait.frame, k) == now.frame;
  }

  function FrameAfter(frame: Frame, k: int): int {
    (frame + k) % 0x1_0000_0000
  }

  function Min(a: WaitState, b: WaitState): WaitState {
    WaitState(if b.time < a.time then b.time else a.time, if b.frame < a.frame then b.frame else a.frame)
  }

  /** No later in either component. */
  predicate NoLater(a: WaitState, b: WaitState) {
    a.time <= b.time && a.frame <= b.frame
  }

  /** A coroutine, given by what it still has to do: the wait states it is going to yield, and whether it
      ends with an exception. */
  datatype Task = Task(wait: WaitState, plan: seq<WaitState>, throws: bool, done: bool, tag: nat)

  function Resumed(t: Task): (t': Task)
    requires !t.done
    ensures Left(t') < Left(t)
  {
    if t.plan == [] then t.(done := true) else t.(wait := t.plan[0], plan := t.plan[1..])
  }

  /** How often a task can still be resumed. */
  function Left(t: Task): nat {
    if t.done then 0 else |t.plan| + 1
  }

  function AllLeft(ts: seq<Task>): nat {
    if ts == [] then 0 else AllLeft(ts[..|ts| - 1]) + Left(ts[|ts| - 1])
  }

  lemma {:induction false} LessLeft(ts: seq<Task>, i: nat, t: Task)
    requires i < |ts| && Left(t) < Left(ts[i])
    ensures AllLeft(ts[i := t]) < AllLeft(ts)
  {
    var last := |ts| - 1;
    if i < last {
      assert ts[i := t][..last] == ts[..last][i := t];
      LessLeft(ts[..last], i, t);
    } else {
      assert ts[i := t][..last] == ts[..last];
    }
  }

  /** What a task waits for after it was resumed `k` times. */
  function WaitAfter(t: Task, k: nat): WaitState
    requires k <= |t.plan| + 1
  {
    if k == 0 then t.wait
    else if k <= |t.plan| then t.plan[k - 1]
    else if t.plan == [] then t.wait
    else t.plan[|t.plan| - 1]
  }

  /** `b` is `a` after it was resumed `k` times. */
  predicate After(a: Task, b: Task, k: nat) {
    && b.tag == a.tag && b.throws == a.throws
    && k <= |a.plan| + 1 && b.wait == WaitAfter(a, k)
    && if a.done then b == a && k == 0
       else b.done == (k == |a.plan| + 1) && b.plan == if b.done then [] else a.plan[k..]
  }

  ghost predicate AllAfter(before: seq<Task>, now: seq<Task>, counts: seq<nat>) {
    |before| == |now| == |counts| && forall i :: 0 <= i < |now| ==> After(before[i], now[i], counts[i])
  }

  /** A look at a task that is not done: the clock is read, and the task is resumed or not. Look `k` of a
      run goes with reading `k` of the clock. */
  datatype Look = Look(task: nat, resumed: bool)

  /** How often task `i` was resumed. */
  function Count(looks: seq<Look>, i: nat): nat {
    if looks == [] then 0
    else
      var last := looks[|looks| - 1];
      Count(looks[..|looks| - 1], i) + if last.task == i && last.resumed then 1 else 0
  }

  /** Look `k` was at a task not done, and the task was resumed exactly if what it waited for then had passed. */
  predicate Right(before: seq<Task>, clock: Clock, looks: seq<Look>, k: nat)
    requires k < |looks|
  {
    var i, count := looks[k].task, Count(looks[..k], looks[k].task);
    && i < |before| && !before[i].done && count <= |before[i].plan|
    && (looks[k].resumed <==> Passed(WaitAfter(before[i], count), clock(k)))
  }

  ghost predicate AllRight(before: seq<Task>, clock: Clock, looks: seq<Look>) {
    forall k: nat :: k < |looks| ==> Right(before, clock, looks, k)
  }

  function NotDone(ts: seq<Task>): (rest: seq<Task>)
    ensures |rest| <= |ts| && forall t :: t in rest ==> t in ts && !t.done
  {
    if ts == [] then []
    else NotDone(ts[..|ts| - 1]) + if ts[|ts| - 1].done then [] else [ts[|ts| - 1]]
  }

  datatype Outcome = Idle(wait: WaitState) | Threw(tag: nat)

  /** The clock as it is read, reading after reading. It need not even be monotonic. */
  type Clock = nat -> WaitState

  /** The last readings of the clock before number `end`, one for each of `ts`, each found its task waiting. */
  ghost predicate FoundWaiting(clock: Clock, ts: seq<Task>, end: nat) {
    |ts| <= end && forall s :: 0 <= s < |ts| ==> !Passed(ts[s].wait, clock(end - |ts| + s))
  }

  /** The earliest wait is one that came up: nothing is waited for that no task waited for, component by
      component. */
  ghost predicate CameUp(before: seq<Task>, counts: seq<nat>, wait: WaitState) {
    && (wait.time == SUSPEND.time || exists i: nat, k: nat :: WaitsFor(before, counts, i, k).time == wait.time)
    && (wait.frame == SUSPEND.frame || exists i: nat, k: nat :: WaitsFor(before, counts, i, k).frame == wait.frame)
  }

  /** What task `i` waited for after `k` resumptions, if it came to that. */
  function WaitsFor(before: seq<Task>, counts: seq<nat>, i: nat, k: nat): WaitState {
    if i < |before| && i < |counts| && k <= counts[i] && k <= |before[i].plan| + 1 then WaitAfter(before[i], k)
    else SUSPEND
  }

  /** What is known of a run so far. */
  ghost predicate Running(before: seq<Task>, now: seq<Task>, clock: Clock, counts: seq<nat>, looks: seq<Look>,
                          wait: WaitState) {
    && AllAfter(before, now, counts)
    && (forall i: nat :: i < |counts| ==> Count(looks, i) == counts[i])
    && AllRight(before, clock, looks)
    && CameUp(before, counts, wait)
  }

  /** What is known of a round that has found the first `i` tasks waiting or done. */
  ghost predicate AllWaiting(clock: Clock, ts: seq<Task>, wait: WaitState, i: nat, end: nat) {
    && i <= |ts|
    && FoundWaiting(clock, NotDone(ts[..i]), end)
    && forall k :: 0 <= k < i ==> NoLater(wait, ts[k].wait)
  }

  /** The least wait that came up, component by component: what was waited for after each look, and what tasks
      that were done from the beginning had waited for. */
  function Least(before: seq<Task>, looks: seq<Look>): WaitState {
    if looks == [] then LeastDone(before)
    else
      var i := looks[|looks| - 1].task;
      Min(Least(before, looks[..|looks| - 1]),
          if i < |before| && Count(looks, i) <= |before[i].plan| + 1 then WaitAfter(before[i], Count(looks, i))
          else SUSPEND)
  }

  /** What tasks that are done waited for last. */
  function LeastDone(ts: seq<Task>): WaitState {
    if ts == [] then SUSPEND
    else
      var t := ts[|ts| - 1];
      Min(LeastDone(ts[..|ts| - 1]), if t.done then t.wait else SUSPEND)
  }

  lemma MinIsLeast(a: WaitState, b: WaitState, c: WaitState)
    ensures Min(a, b) == Min(b, a) && Min(a, Min(b, c)) == Min(Min(a, b), c) && Min(a, a) == a && Min(a, SUSPEND) == a
  {
  }

  lemma {:induction false} LeastDoneAfter(ts: seq<Task>, i: nat, t: Task)
    requires i < |ts| && !ts[i].done
    ensures LeastDone(ts[i := t]) == Min(LeastDone(ts), if t.done then t.wait else SUSPEND)
  {
    hide Min;
    var n, last := |ts| - 1, ts[|ts| - 1];
    var prefix, end := LeastDone(ts[..n]), if last.done then last.wait else SUSPEND;
    var added := if t.done then t.wait else SUSPEND;
    MinIsLeast(prefix, end, added);
    MinIsLeast(prefix, added, end);
    MinIsLeast(end, added, end);
    if i < n {
      assert ts[i := t][..n] == ts[..n][i := t];
      LeastDoneAfter(ts[..n], i, t);
    } else {
      assert ts[i := t][..n] == ts[..n];
    }
  }

  lemma {:induction false} LeastDoneHas(ts: seq<Task>, i: nat)
    requires i < |ts| && ts[i].done
    ensures Min(LeastDone(ts), ts[i].wait) == LeastDone(ts)
  {
    hide Min;
    var n, last := |ts| - 1, ts[|ts| - 1];
    var prefix, end := LeastDone(ts[..n]), if last.done then last.wait else SUSPEND;
    MinIsLeast(prefix, end, ts[i].wait);
    MinIsLeast(prefix, ts[i].wait, end);
    MinIsLeast(end, ts[i].wait, end);
    if i < n { LeastDoneHas(ts[..n], i); }
  }

  lemma {:induction false} LeastDoneIsLater(ts: seq<Task>, wait: WaitState)
    requires forall k :: 0 <= k < |ts| ==> NoLater(wait, ts[k].wait)
    ensures Min(wait, LeastDone(ts)) == wait
  {
    if ts != [] { LeastDoneIsLater(ts[..|ts| - 1], wait); }
  }

  /** The wait so far, and what tasks have waited for that are done, make up the least that came up. */
  ghost predicate Tallies(before: seq<Task>, now: seq<Task>, looks: seq<Look>, wait: WaitState) {
    Min(wait, LeastDone(now)) == Least(before, looks)
  }

  lemma TalliesDone(before: seq<Task>, now: seq<Task>, looks: seq<Look>, wait: WaitState, i: nat)
    requires Tallies(before, now, looks, wait) && i < |now| && now[i].done
    ensures Tallies(before, now, looks, Min(wait, now[i].wait))
  {
    hide Min;
    LeastDoneHas(now, i);
    MinIsLeast(wait, now[i].wait, LeastDone(now));
    MinIsLeast(now[i].wait, LeastDone(now), now[i].wait);
  }

  lemma LeastMore(before: seq<Task>, looks: seq<Look>, i: nat, resumed: bool, k: nat)
    requires i < |before| && k == Count(looks, i) + (if resumed then 1 else 0) && k <= |before[i].plan| + 1
    ensures Least(before, looks + [Look(i, resumed)]) == Min(Least(before, looks), WaitAfter(before[i], k))
  {
    hide Min, WaitAfter;
    var all := looks + [Look(i, resumed)];
    assert all[..|looks|] == looks;
  }

  /** A look at task `i`, after which it is `t` and waits for `t.wait`, whether the wait is kept in `wait'` or,
      the task being done, is not. */
  lemma TalliesLook(before: seq<Task>, now: seq<Task>, looks: seq<Look>, wait: WaitState, i: nat, t: Task,
                    resumed: bool, k: nat, wait': WaitState)
    requires Tallies(before, now, looks, wait) && i < |now| == |before| && !now[i].done
    requires k == Count(looks, i) + (if resumed then 1 else 0) && k <= |before[i].plan| + 1
    requires t.wait == WaitAfter(before[i], k)
    requires wait' == Min(wait, t.wait) || (wait' == wait && t.done)
    ensures Tallies(before, now[i := t], looks + [Look(i, resumed)], wait')
  {
    hide Min, WaitAfter, Least, LeastDone, Count;
    LeastMore(before, looks, i, resumed, k);
    LeastDoneAfter(now, i, t);
    var least := LeastDone(now);
    MinIsLeast(wait, least, t.wait);
    MinIsLeast(wait, t.wait, least);
    MinIsLeast(least, t.wait, t.wait);
    MinIsLeast(least, SUSPEND, SUSPEND);
    MinIsLeast(t.wait, least, t.wait);
    MinIsLeast(Min(wait, t.wait), least, t.wait);
    MinIsLeast(wait, t.wait, Min(least, t.wait));
    MinIsLeast(t.wait, t.wait, least);
  }

  datatype RoundOutcome = Completed(wait: WaitState, idle: bool) | Aborted(tag: nat)

  class Scheduler {
    var tasks: seq<Task>

    constructor ()
      ensures tasks == []
    {
      tasks := [];
    }

    method Schedule(t: Task)
      modifies this
      ensures tasks == old(tasks) + [t]
    {
      tasks := tasks + [t];
    }

    /** One round over the tasks. `Aborted` stands for an exception that was left to the caller. */
    method Round(clock: Clock, handles: nat -> bool, wait: WaitState, reading: nat,
                 ghost before: seq<Task>, ghost counts: seq<nat>, ghost looks: seq<Look>)
        returns (outcome: RoundOutcome, reading': nat, ghost counts': seq<nat>, ghost looks': seq<Look>)
      requires Running(before, tasks, clock, counts, looks, wait) && reading == |looks|
      requires Tallies(before, tasks, looks, wait)
      modifies this
      ensures reading' == |looks'|
      ensures match outcome
        case Completed(wait', idle) =>
          && Running(before, tasks, clock, counts', looks', wait') && Tallies(before, tasks, looks', wait')
          && if idle then AllWaiting(clock, tasks, wait', |tasks|, reading') && tasks == old(tasks)
             else AllLeft(tasks) < old(AllLeft(tasks))
        case Aborted(tag) =>
          && Running(before, tasks, clock, counts', looks', SUSPEND)
          && exists t :: t in tasks && t.done && t.throws && t.tag == tag && !handles(tag)
    {
      hide After, Count, Passed, Min, NoLater, AllLeft, Resumed, Left, CameUp, AllRight, NotDone, Tallies, WaitAfter;
      var idle, soonest := true, wait;
      reading', counts', looks' := reading, counts, looks;
      StartsWaiting(clock, tasks, wait, reading);
      for i := 0 to |tasks|
        invariant |tasks| == |old(tasks)| && reading' == |looks'|
        invariant Running(before, tasks, clock, counts', looks', soonest)
        invariant Tallies(before, tasks, looks', soonest)
        invariant idle ==> AllWaiting(clock, tasks, soonest, i, reading') && tasks == old(tasks)
        invariant !idle ==> AllLeft(tasks) < old(AllLeft(tasks))
      {
        var t := tasks[i];
        if t.done {
          if idle { DoneWaits(clock, tasks, soonest, i, reading'); }
          WaitStays(before, tasks, clock, counts', looks', soonest, i);
          TalliesDone(before, tasks, looks', soonest, i);
          soonest := Min(soonest, t.wait);
        } else {
          var now := clock(reading');
          var ready := Passed(t.wait, now);
          reading' := reading' + 1;
          if ready {
            LessLeft(tasks, i, Resumed(t));
            ghost var now', looksBefore, soonBefore := tasks, looks', soonest;
            RunsOn(before, tasks, clock, counts', looks', soonest, i);
            tasks := tasks[i := Resumed(t)];
            counts' := counts'[i := counts'[i] + 1];
            looks' := looks' + [Look(i, true)];
            ThrowsSame(t);
            if tasks[i].done && t.throws {
              if !handles(t.tag) {
                Forget(before, tasks, clock, counts', looks', soonest);
                return Aborted(t.tag), reading', counts', looks';
              }
            } else {
              WaitStays(before, tasks, clock, counts', looks', soonest, i);
              soonest := Min(soonest, tasks[i].wait);
            }
            WaitIs(before, tasks, clock, counts', looks', soonest, i);
            CountsOn(looksBefore, Look(i, true), i);
            TalliesLook(before, now', looksBefore, soonBefore, i, tasks[i], true, counts'[i], soonest);
            idle := false;
          } else {
            if idle { WaitsOn(clock, tasks, soonest, i, |looks'|); }
            LooksOn(before, tasks, clock, counts', looks', soonest, i);
            WaitIs(before, tasks, clock, counts', looks', soonest, i);
            TalliesLook(before, tasks, looks', soonest, i, t, false, counts'[i], Min(soonest, t.wait));
            assert tasks[i := t] == tasks;
            looks' := looks' + [Look(i, false)];
            WaitStays(before, tasks, clock, counts', looks', soonest, i);
            soonest := Min(soonest, t.wait);
          }
        }
      }
      outcome := Completed(soonest, idle);
    }

    /** Runs the tasks until a whole round has found none ready. `handles` says whether the error handler
        deals with an exception. Every look resumes its task exactly if the task is ready at that reading of
        the clock, and the last readings, one for each remaining task, found it waiting. The result is no
        later than what any remaining task waits for. */
    method RunUntilIdle(clock: Clock, handles: nat -> bool)
        returns (r: Outcome, ghost last: seq<Task>, ghost counts: seq<nat>, ghost looks: seq<Look>)
      modifies this
      ensures AllAfter(old(tasks), last, counts)
      ensures forall i: nat :: i < |last| ==> Count(looks, i) == counts[i]
      ensures AllRight(old(tasks), clock, looks)
      ensures old(tasks) == [] ==> r == Idle(WaitState(0x7FFF_FFFF_FFFF_FFFF, 0xFFFF_FFFF))
      ensures r.Idle? ==>
        && tasks == NotDone(last) && FoundWaiting(clock, tasks, |looks|)
        && (forall t :: t in tasks ==> NoLater(r.wait, t.wait))
        && r.wait == Least(old(tasks), looks) && CameUp(old(tasks), counts, r.wait)
        && forall lo: Frame, hi: Frame, late: nat :: FramesWithin(old(tasks), lo, hi) && hi - lo + late <= FRAMES / 2
             ==> !Misses(tasks, r.wait, late)
      ensures r.Threw? ==>
        tasks == last && exists t :: t in last && t.done && t.throws && t.tag == r.tag && !handles(t.tag)
    {
      hide Count, Passed, Min, NoLater, AllLeft, After, CameUp, AllRight;
      last, counts, looks := tasks, seq(|tasks|, _ => 0), [];
      StartsRunning(tasks, clock, counts);
      if tasks == [] {
        NothingCameUp(counts);
        assert Least([], []) == SUSPEND;
        return Idle(SUSPEND), last, counts, looks;
      }
      ghost var was := tasks;
      var wait, idle := SUSPEND, false;
      StartsTally(tasks);
      var reading: nat := 0;
      while !idle
        invariant reading == |looks|
        invariant Running(was, tasks, clock, counts, looks, wait) && Tallies(was, tasks, looks, wait)
        invariant idle ==> AllWaiting(clock, tasks, wait, |tasks|, reading)
        decreases AllLeft(tasks), !idle
      {
        var outcome;
        outcome, reading, counts, looks := Round(clock, handles, wait, reading, was, counts, looks);
        match outcome {
        case Aborted(tag) =>
          return Threw(tag), tasks, counts, looks;
        case Completed(soonest, none) =>
          wait, idle := soonest, none;
        }
      }
      last := tasks;
      LeastDoneIsLater(last, wait);
      TallyEnds(was, last, looks, wait);
      assert last[..|last|] == last;
      tasks := NotDone(tasks);
      r := Idle(wait);
      forall t | t in tasks ensures NoLater(wait, t.wait) {
        var i :| 0 <= i < |last| && last[i] == t;
      }
      forall lo: Frame, hi: Frame, late: nat | FramesWithin(was, lo, hi) && hi - lo + late <= FRAMES / 2
        ensures !Misses(tasks, wait, late)
      {
        NothingMissed(was, last, counts, wait, lo, hi, late);
      }
    }
  }

  lemma StartsTally(ts: seq<Task>)
    ensures Tallies(ts, ts, [], SUSPEND)
  {
  }

  lemma TallyEnds(before: seq<Task>, last: seq<Task>, looks: seq<Look>, wait: WaitState)
    requires Tallies(before, last, looks, wait) && Min(wait, LeastDone(last)) == wait
    ensures wait == Least(before, looks)
  {
  }

  /** What a task waits for now, by how often it was resumed. */
  lemma WaitIs(before: seq<Task>, now: seq<Task>, clock: Clock, counts: seq<nat>, looks: seq<Look>, wait: WaitState,
               i: nat)
    requires Running(before, now, clock, counts, looks, wait) && i < |now|
    ensures |now| == |before| == |counts| && counts[i] <= |before[i].plan| + 1 && counts[i] == Count(looks, i)
    ensures now[i].wait == WaitAfter(before[i], counts[i])
  {
    hide WaitAfter, Count, CameUp, AllRight;
    assert After(before[i], now[i], counts[i]);
  }

  lemma StartsRunning(ts: seq<Task>, clock: Clock, counts: seq<nat>)
    requires counts == seq(|ts|, _ => 0)
    ensures Running(ts, ts, clock, counts, [], SUSPEND) && FoundWaiting(clock, [], 0) && NotDone([]) == []
  {
  }

  lemma StartsWaiting(clock: Clock, ts: seq<Task>, wait: WaitState, end: nat)
    ensures AllWaiting(clock, ts, wait, 0, end)
  {
  }

  lemma ThrowsSame(t: Task)
    requires !t.done
    ensures Resumed(t).throws == t.throws && Resumed(t).tag == t.tag
  {
  }

  /** A look is right or wrong by itself; later ones do not matter. */
  lemma LookAdds(before: seq<Task>, clock: Clock, looks: seq<Look>, look: Look)
    requires AllRight(before, clock, looks)
    requires var count := Count(looks, look.task);
      && look.task < |before| && !before[look.task].done && count <= |before[look.task].plan|
      && (look.resumed <==> Passed(WaitAfter(before[look.task], count), clock(|looks|)))
    ensures AllRight(before, clock, looks + [look])
  {
    hide Passed, WaitAfter, Count;
    var more := looks + [look];
    forall k: nat | k < |more| ensures Right(before, clock, more, k) {
      assert more[..k] == looks[..k];
      if k < |looks| { assert Right(before, clock, looks, k); } else { assert looks[..k] == looks; }
    }
  }

  lemma CountsOn(looks: seq<Look>, look: Look, i: nat)
    ensures Count(looks + [look], i) == Count(looks, i) + if look.task == i && look.resumed then 1 else 0
  {
    assert (looks + [look])[..|looks|] == looks;
  }

  lemma RunsOn(before: seq<Task>, now: seq<Task>, clock: Clock, counts: seq<nat>, looks: seq<Look>,
               wait: WaitState, i: nat)
    requires Running(before, now, clock, counts, looks, wait)
    requires i < |now| && !now[i].done && Passed(now[i].wait, clock(|looks|))
    ensures Running(before, now[i := Resumed(now[i])], clock, counts[i := counts[i] + 1], looks + [Look(i, true)], wait)
  {
    hide Passed, Count, CameUp, AllRight;
    assert After(before[i], now[i], counts[i]);
    LookAdds(before, clock, looks, Look(i, true));
    ResumedAfter(before[i], now[i], counts[i]);
    MoreCameUp(before, counts, counts[i := counts[i] + 1], wait);
    forall k: nat | k < |counts| ensures Count(looks + [Look(i, true)], k) == counts[i := counts[i] + 1][k] {
      CountsOn(looks, Look(i, true), k);
    }
  }

  lemma LooksOn(before: seq<Task>, now: seq<Task>, clock: Clock, counts: seq<nat>, looks: seq<Look>,
                wait: WaitState, i: nat)
    requires Running(before, now, clock, counts, looks, wait)
    requires i < |now| && !now[i].done && !Passed(now[i].wait, clock(|looks|))
    ensures Running(before, now, clock, counts, looks + [Look(i, false)], wait)
  {
    hide Passed, Count, CameUp, AllRight;
    assert After(before[i], now[i], counts[i]);
    LookAdds(before, clock, looks, Look(i, false));
    forall k: nat | k < |counts| ensures Count(looks + [Look(i, false)], k) == counts[k] {
      CountsOn(looks, Look(i, false), k);
    }
  }

  lemma ResumedAfter(a: Task, b: Task, k: nat)
    requires After(a, b, k) && !b.done
    ensures After(a, Resumed(b), k + 1)
  {
  }

  lemma MoreCameUp(before: seq<Task>, counts: seq<nat>, more: seq<nat>, wait: WaitState)
    requires |more| == |counts| && forall i :: 0 <= i < |counts| ==> counts[i] <= more[i]
    requires CameUp(before, counts, wait)
    ensures CameUp(before, more, wait)
  {
    if wait.time != SUSPEND.time {
      var i: nat, k: nat :| WaitsFor(before, counts, i, k).time == wait.time;
      assert WaitsFor(before, more, i, k).time == wait.time;
    }
    if wait.frame != SUSPEND.frame {
      var i: nat, k: nat :| WaitsFor(before, counts, i, k).frame == wait.frame;
      assert WaitsFor(before, more, i, k).frame == wait.frame;
    }
  }

  /** What a task waits for now has come up. */
  lemma WaitStays(before: seq<Task>, now: seq<Task>, clock: Clock, counts: seq<nat>, looks: seq<Look>,
                  wait: WaitState, i: nat)
    requires Running(before, now, clock, counts, looks, wait) && i < |now|
    ensures Running(before, now, clock, counts, looks, Min(wait, now[i].wait))
  {
    hide WaitAfter, Count, AllRight;
    assert After(before[i], now[i], counts[i]);
    assert WaitsFor(before, counts, i, counts[i]) == now[i].wait;
  }

  lemma Forget(before: seq<Task>, now: seq<Task>, clock: Clock, counts: seq<nat>, looks: seq<Look>, wait: WaitState)
    requires Running(before, now, clock, counts, looks, wait)
    ensures Running(before, now, clock, counts, looks, SUSPEND)
  {
  }

  lemma DoneWaits(clock: Clock, ts: seq<Task>, wait: WaitState, i: nat, end: nat)
    requires i < |ts| && AllWaiting(clock, ts, wait, i, end) && ts[i].done
    ensures AllWaiting(clock, ts, Min(wait, ts[i].wait), i + 1, end)
  {
    assert ts[..i + 1][..i] == ts[..i];
    Earlier(ts, wait, i);
  }

  /** A round that finds a task waiting goes on like that. */
  lemma WaitsOn(clock: Clock, ts: seq<Task>, wait: WaitState, i: nat, end: nat)
    requires i < |ts| && AllWaiting(clock, ts, wait, i, end) && !ts[i].done && !Passed(ts[i].wait, clock(end))
    ensures AllWaiting(clock, ts, Min(wait, ts[i].wait), i + 1, end + 1)
  {
    hide Passed;
    assert ts[..i + 1][..i] == ts[..i];
    Earlier(ts, wait, i);
  }

  lemma Earlier(ts: seq<Task>, wait: WaitState, i: nat)
    requires i < |ts| && forall k :: 0 <= k < i ==> NoLater(wait, ts[k].wait)
    ensures forall k :: 0 <= k < i + 1 ==> NoLater(Min(wait, ts[i].wait), ts[k].wait)
  {
    forall k | 0 <= k < i + 1 ensures NoLater(Min(wait, ts[i].wait), ts[k].wait) {
      assert k < i ==> NoLater(wait, ts[k].wait);
    }
  }

  /** How far `now` is past a frame, going round. */
  function Lateness(wait: WaitState, now: WaitState): nat {
    now.frame - wait.frame + if now.frame < wait.frame then FRAMES else 0
  }

  /** The least frame is taken without regard to the frame counter going round, but compared with regard to it:
      a wait has passed whenever a later one is ready by up to `late` frames if and only if half the range of
      the counter holds their distance and `late`. */
  lemma ReturnedWaitWithinHalf(r: WaitState, t: WaitState, late: nat)
    requires NoLater(r, t) && late <= FRAMES / 2
    ensures (forall now :: Passed(t, now) && Lateness(t, now) <= late ==> Passed(r, now)) <==>
            t.frame - r.frame + late <= FRAMES / 2
  {
    hide Passed;
    var spread := t.frame - r.frame;
    if spread + late <= FRAMES / 2 {
      forall now | Passed(t, now) && Lateness(t, now) <= late ensures Passed(r, now) {
        PassedIsLateness(r, now);
        PassedIsLateness(t, now);
      }
    } else {
      var extra := if spread > FRAMES / 2 then 0 else FRAMES / 2 + 1 - spread;
      var later := t.frame + extra;
      var now := WaitState(t.time, if later < FRAMES then later else later - FRAMES);
      assert Lateness(t, now) == extra;
      PassedIsLateness(t, now);
      PassedIsLateness(r, now);
      assert Passed(t, now) && Lateness(t, now) <= late && !Passed(r, now);
    }
  }

  /** All the frames that the tasks wait for, now and later. */
  ghost predicate FramesWithin(ts: seq<Task>, lo: Frame, hi: Frame) {
    forall t :: t in ts ==> lo <= t.wait.frame <= hi && forall w :: w in t.plan ==> lo <= w.frame <= hi
  }

  /** A task is ready, by no more than `late` frames, though the wait has not passed. */
  ghost predicate Misses(ts: seq<Task>, wait: WaitState, late: nat) {
    exists t, now :: t in ts && Passed(t.wait, now) && Lateness(t.wait, now) <= late && !Passed(wait, now)
  }

  lemma NothingCameUp(counts: seq<nat>)
    ensures CameUp([], counts, SUSPEND) && forall late: nat :: !Misses([], SUSPEND, late)
  {
  }

  lemma WaitWithin(t: Task, k: nat, lo: Frame, hi: Frame)
    requires k <= |t.plan| + 1 && lo <= t.wait.frame <= hi && forall w :: w in t.plan ==> lo <= w.frame <= hi
    ensures lo <= WaitAfter(t, k).frame <= hi
  {
  }

  /** If half the range of the counter holds the distance of all frames that are waited for and `late`, what
      has come up last misses no task that is ready by up to `late` frames. */
  lemma NothingMissed(before: seq<Task>, last: seq<Task>, counts: seq<nat>, wait: WaitState,
                      lo: Frame, hi: Frame, late: nat)
    requires AllAfter(before, last, counts) && CameUp(before, counts, wait)
    requires forall t :: t in NotDone(last) ==> NoLater(wait, t.wait)
    requires FramesWithin(before, lo, hi) && hi - lo + late <= FRAMES / 2
    ensures !Misses(NotDone(last), wait, late)
  {
    hide Passed, WaitAfter;
    forall t, now | t in NotDone(last) && Passed(t.wait, now) && Lateness(t.wait, now) <= late
      ensures Passed(wait, now)
    {
      var i :| 0 <= i < |last| && last[i] == t;
      assert After(before[i], last[i], counts[i]) && before[i] in before;
      WaitWithin(before[i], counts[i], lo, hi);
      FrameCameUp(before, counts, wait, lo, hi);
      ReturnedWaitWithinHalf(wait, t.wait, late);
    }
  }

  lemma FrameCameUp(before: seq<Task>, counts: seq<nat>, wait: WaitState, lo: Frame, hi: Frame)
    requires CameUp(before, counts, wait) && FramesWithin(before, lo, hi)
    ensures lo <= wait.frame
  {
    hide WaitAfter;
    if wait.frame != SUSPEND.frame {
      var i: nat, k: nat :| WaitsFor(before, counts, i, k).frame == wait.frame;
      if i < |before| && i < |counts| && k <= counts[i] && k <= |before[i].plan| + 1 {
        assert before[i] in before;
        WaitWithin(before[i], k, lo, hi);
      }
    }
  }

  /** No task is resumed by a clock that says of none that it is ready. */
  lemma {:induction false} NoneResumed(before: seq<Task>, clock: Clock, looks: seq<Look>, i: nat)
    requires AllRight(before, clock, looks)
    requires forall t, k :: t in before ==> !Passed(t.wait, clock(k))
    ensures Count(looks, i) == 0
  {
    hide Passed;
    if looks != [] {
      var prefix, k := looks[..|looks| - 1], |looks| - 1;
      forall j: nat | j < |prefix| ensures Right(before, clock, prefix, j) {
        assert prefix[..j] == looks[..j];
        assert Right(before, clock, looks, j);
      }
      NoneResumed(before, clock, prefix, i);
      NoneResumed(before, clock, prefix, looks[k].task);
      assert Right(before, clock, looks, k);
    }
  }

  /** And the other way round: if half the range does not hold them, as with the last frame and frame 0, there
      are tasks waiting for just these frames, and a run whose result misses the later one. */
  method MissesATask(lo: Frame, hi: Frame, late: nat)
      returns (r: Outcome, scheduler: Scheduler, ghost before: seq<Task>)
    requires lo <= hi && late <= FRAMES / 2 < hi - lo + late
    ensures FramesWithin(before, lo, hi) && scheduler.tasks == before
    ensures r == Idle(WaitState(0, lo)) && Misses(scheduler.tasks, r.wait, late)
  {
    hide Passed, Count, AllAfter, AllRight, CameUp, NotDone, FoundWaiting, FramesWithin, Misses, NoLater;
    var early, later := Waiter(lo), Waiter(hi);
    scheduler := new Scheduler();
    scheduler.Schedule(early);
    scheduler.Schedule(later);
    before := scheduler.tasks;
    var clock := (n: nat) => WaitState(-1, 0);
    ghost var last, counts, looks;
    r, last, counts, looks := scheduler.RunUntilIdle(clock, _ => true);
    assert before == [early, later];
    TwoWait(early, later, clock, last, counts, looks);
    OnlyLeast(early, later, counts, r.wait);
    LaterIsMissed(lo, hi, late);
  }

  function Waiter(frame: Frame): Task {
    Task(WaitState(0, frame), [], false, false, 0)
  }

  lemma TwoWait(early: Task, later: Task, clock: Clock, last: seq<Task>, counts: seq<nat>, looks: seq<Look>)
    requires AllAfter([early, later], last, counts) && AllRight([early, later], clock, looks)
    requires forall i: nat :: i < |last| ==> Count(looks, i) == counts[i]
    requires !early.done && !later.done
    requires forall k :: clock(k).time < early.wait.time && clock(k).time < later.wait.time
    ensures last == [early, later] && NotDone(last) == last && |counts| == 2 && counts[0] == counts[1] == 0
  {
    hide Passed, Count;
    var before := [early, later];
    forall t, k | t in before ensures !Passed(t.wait, clock(k)) { NotBeforeTime(t.wait, clock(k)); }
    NoneResumed(before, clock, looks, 0);
    NoneResumed(before, clock, looks, 1);
    NoneRan(before, last, counts);
  }

  lemma LaterIsMissed(lo: Frame, hi: Frame, late: nat)
    requires lo <= hi && late <= FRAMES / 2 < hi - lo + late
    ensures var ts := [Waiter(lo), Waiter(hi)];
      FramesWithin(ts, lo, hi) && Misses(ts, WaitState(0, lo), late)
  {
    hide Passed;
    var ts, r, w := [Waiter(lo), Waiter(hi)], WaitState(0, lo), Waiter(hi).wait;
    ReturnedWaitWithinHalf(r, w, late);
    var now :| Passed(w, now) && Lateness(w, now) <= late && !Passed(r, now);
    assert ts[1] in ts;
  }

  lemma NoneRan(before: seq<Task>, last: seq<Task>, counts: seq<nat>)
    requires AllAfter(before, last, counts) && forall i :: 0 <= i < |counts| ==> counts[i] == 0
    requires forall t :: t in before ==> !t.done
    ensures last == before && NotDone(last) == last
  {
    forall i | 0 <= i < |last| ensures last[i] == before[i] { assert After(before[i], last[i], counts[i]); }
    AllNotDone(last);
  }

  lemma {:induction false} AllNotDone(ts: seq<Task>)
    requires forall t :: t in ts ==> !t.done
    ensures NotDone(ts) == ts
  {
    if ts == [] {
      assert NotDone(ts) == [];
    } else {
      var prefix, t := ts[..|ts| - 1], ts[|ts| - 1];
      assert t in ts && ts == prefix + [t];
      AllNotDone(prefix);
    }
  }

  lemma OnlyLeast(early: Task, later: Task, counts: seq<nat>, wait: WaitState)
    requires CameUp([early, later], counts, wait) && |counts| == 2 && counts[0] == counts[1] == 0
    requires forall t :: t in [early, later] ==> NoLater(wait, t.wait)
    requires early.wait.time == later.wait.time < LAST_TIME && early.wait.frame <= later.wait.frame
    ensures wait == early.wait
  {
    var before := [early, later];
    assert before[0] in before && before[1] in before;
    if wait.frame != SUSPEND.frame {
      var i: nat, k: nat :| WaitsFor(before, counts, i, k).frame == wait.frame;
      assert i == 0 || i == 1 || WaitsFor(before, counts, i, k) == SUSPEND;
    }
  }

  lemma NotBeforeTime(wait: WaitState, now: WaitState)
    requires now.time < wait.time
    ensures !Passed(wait, now)
  {
  }

  lemma PassedIsLateness(wait: WaitState, now: WaitState)
    ensures Passed(wait, now) <==> wait.time <= now.time && Lateness(wait, now) <= FRAMES / 2
  {
  }
}
