/** The worker pool of `threadpool.h` as a step machine. Every critical section under the queue
    mutex is one step; a notification is a step of its own, since it comes after the unlock. A
    sleeping worker may also wake up spuriously. Tasks are numbered in the order in which they
    were enqueued.
 */
module ThreadPool {
  import opened Basics

  datatype Worker = Ready | Asleep | Running(task: nat) | Exited

  /** `owedOne` counts calls of `notify_one` still to come, `owedAll` says whether the
      destructor still has to call `notify_all`. */
  datatype Pool = Pool(workers: seq<Worker>, tasks: seq<nat>, stop: bool, owedOne: nat, owedAll: bool,
                       enqueued: nat, done: seq<nat>)

  datatype Event =
    | Enqueue
    | NotifyOne(worker: nat)
    | BeginStop
    | NotifyAll
    | Check(worker: nat)
    | Finish(worker: nat)
    | Spurious(worker: nat)

  predicate Is(p: Pool, w: nat, k: Worker) {
    w < |p.workers| && p.workers[w] == k
  }

  predicate NoneAsleep(ws: seq<Worker>) {
    ws == [] || (ws[0] != Asleep && NoneAsleep(ws[1..]))
  }

  function WakeAll(ws: seq<Worker>): (r: seq<Worker>)
    ensures |r| == |ws|
  {
    if ws == [] then [] else [if ws[0] == Asleep then Ready else ws[0]] + WakeAll(ws[1..])
  }

  /** `enqueue` always may be called; the destructor runs once; `notify_one` wakes some sleeper
      if there is one. */
  predicate Enabled(p: Pool, e: Event) {
    match e
    case Enqueue => true
    case NotifyOne(w) => p.owedOne > 0 && (Is(p, w, Asleep) || NoneAsleep(p.workers))
    case BeginStop => !p.stop
    case NotifyAll => p.owedAll
    case Check(w) => Is(p, w, Ready)
    case Finish(w) => w < |p.workers| && p.workers[w].Running?
    case Spurious(w) => Is(p, w, Asleep)
  }

  function Set(p: Pool, w: nat, k: Worker): Pool
    requires w < |p.workers|
  {
    p.(workers := p.workers[w := k])
  }

  /** What a worker does once it holds the lock: sleep while there is nothing to do, leave when
      the pool has stopped and is empty, otherwise take the first task. */
  function Checked(p: Pool, w: nat): Pool
    requires w < |p.workers|
  {
    if !p.stop && p.tasks == [] then Set(p, w, Asleep)
    else if p.tasks == [] then Set(p, w, Exited)
    else Set(p, w, Running(p.tasks[0])).(tasks := p.tasks[1..])
  }

  function Apply(p: Pool, e: Event): Pool
    requires Enabled(p, e)
  {
    match e
    case Enqueue =>
      if p.stop then p
      else p.(tasks := p.tasks + [p.enqueued], enqueued := p.enqueued + 1, owedOne := p.owedOne + 1)
    case NotifyOne(w) =>
      var q := p.(owedOne := p.owedOne - 1);
      if Is(p, w, Asleep) then Set(q, w, Ready) else q
    case BeginStop => p.(stop := true, owedAll := true)
    case NotifyAll => p.(workers := WakeAll(p.workers), owedAll := false)
    case Check(w) => Checked(p, w)
    case Finish(w) => Set(p, w, Ready).(done := p.done + [p.workers[w].task])
    case Spurious(w) => Set(p, w, Ready)
  }

  function Start(n: nat): Pool {
    Pool(seq(n, _ => Ready), [], false, 0, false, 0, [])
  }

  // ---------------------------------------------------------------- where a task is

  function RunningCount(ws: seq<Worker>, t: nat): nat {
    if ws == [] then 0 else (if ws[0] == Running(t) then 1 else 0) + RunningCount(ws[1..], t)
  }

  /** In how many places task `t` is: queued, running or done. */
  function Places(p: Pool, t: nat): nat {
    Count(p.tasks, t) + RunningCount(p.workers, t) + Count(p.done, t)
  }

  ghost predicate ExactlyOnce(p: Pool) {
    forall t: nat :: Places(p, t) == if t < p.enqueued then 1 else 0
  }

  /** The queue holds the latest tasks, in the order they came. */
  ghost predicate Fifo(p: Pool) {
    |p.tasks| <= p.enqueued && forall i :: 0 <= i < |p.tasks| ==> p.tasks[i] == p.enqueued - |p.tasks| + i
  }

  lemma {:induction false} RunningSet(ws: seq<Worker>, w: nat, k: Worker, t: nat)
    requires w < |ws|
    ensures RunningCount(ws[w := k], t) + (if ws[w] == Running(t) then 1 else 0)
            == RunningCount(ws, t) + if k == Running(t) then 1 else 0
    decreases |ws|
  {
    if w > 0 {
      assert ws[w := k][1..] == ws[1..][w - 1 := k];
      RunningSet(ws[1..], w - 1, k, t);
    } else {
      assert ws[w := k][1..] == ws[1..];
    }
  }

  lemma {:induction false} RunningWake(ws: seq<Worker>, t: nat)
    ensures RunningCount(WakeAll(ws), t) == RunningCount(ws, t)
    decreases |ws|
  {
    if ws != [] {
      RunningWake(ws[1..], t);
      assert WakeAll(ws)[1..] == WakeAll(ws[1..]);
    }
  }

  /** Every step but a successful enqueue leaves every task in as many places as before. */
  lemma PlacesKept(p: Pool, e: Event, t: nat)
    requires Enabled(p, e)
    ensures Places(Apply(p, e), t) == Places(p, t) + if e == Enqueue && !p.stop && t == p.enqueued then 1 else 0
  {
    match e
    case Enqueue => CountLast(p.tasks, p.enqueued, t);
    case NotifyOne(w) =>
      if Is(p, w, Asleep) {
        RunningSet(p.workers, w, Ready, t);
      }
    case BeginStop =>
    case NotifyAll => RunningWake(p.workers, t);
    case Check(w) =>
      RunningSet(p.workers, w, Checked(p, w).workers[w], t);
    case Finish(w) =>
      RunningSet(p.workers, w, Ready, t);
      CountLast(p.done, p.workers[w].task, t);
    case Spurious(w) => RunningSet(p.workers, w, Ready, t);
  }

  lemma FifoKept(p: Pool, e: Event)
    requires Enabled(p, e) && Fifo(p)
    ensures Fifo(Apply(p, e))
  {
  }

  // ---------------------------------------------------------------- no lost wake-up

  /** Some worker is awake: it will look at the queue before it can sleep. */
  predicate SomeAwake(ws: seq<Worker>) {
    ws != [] && (ws[0].Ready? || ws[0].Running? || SomeAwake(ws[1..]))
  }

  predicate SomeExited(ws: seq<Worker>) {
    ws != [] && (ws[0].Exited? || SomeExited(ws[1..]))
  }

  /** Queued tasks are attended to; nobody leaves while tasks remain; nobody sleeps through the
      shutdown. */
  predicate Attended(p: Pool) {
    && (p.tasks != [] ==> p.owedOne > 0 || SomeAwake(p.workers))
    && (SomeExited(p.workers) ==> p.stop && p.tasks == [])
    && (p.stop && !p.owedAll ==> NoneAsleep(p.workers))
    && (p.owedAll ==> p.stop)
    && p.workers != []
  }

  lemma {:induction false} AwakeAt(ws: seq<Worker>, w: nat)
    requires w < |ws| && (ws[w].Ready? || ws[w].Running?)
    ensures SomeAwake(ws)
    decreases |ws|
  {
    if w > 0 {
      AwakeAt(ws[1..], w - 1);
    }
  }

  lemma {:induction false} ExitedSet(ws: seq<Worker>, w: nat, k: Worker)
    requires w < |ws|
    ensures SomeExited(ws[w := k]) ==> SomeExited(ws) || k.Exited?
    decreases |ws|
  {
    if w > 0 {
      assert ws[w := k][1..] == ws[1..][w - 1 := k];
      ExitedSet(ws[1..], w - 1, k);
    } else {
      assert ws[w := k][1..] == ws[1..];
    }
  }

  lemma {:induction false} AsleepSet(ws: seq<Worker>, w: nat, k: Worker)
    requires w < |ws| && NoneAsleep(ws) && k != Asleep
    ensures NoneAsleep(ws[w := k])
    decreases |ws|
  {
    if w > 0 {
      assert ws[w := k][1..] == ws[1..][w - 1 := k];
      AsleepSet(ws[1..], w - 1, k);
    } else {
      assert ws[w := k][1..] == ws[1..];
    }
  }

  lemma {:induction false} NoneLeft(ws: seq<Worker>)
    requires NoneAsleep(ws) && !SomeExited(ws) && ws != []
    ensures SomeAwake(ws)
  {
  }

  lemma {:induction false} Woken(ws: seq<Worker>)
    ensures NoneAsleep(WakeAll(ws)) && SomeExited(WakeAll(ws)) == SomeExited(ws)
    decreases |ws|
  {
    if ws != [] {
      Woken(ws[1..]);
      assert WakeAll(ws)[1..] == WakeAll(ws[1..]);
    }
  }

  lemma StartHolds(n: nat)
    requires n > 0
    ensures Attended(Start(n)) && ExactlyOnce(Start(n)) && Fifo(Start(n))
  {
    NoneExitedAtStart(Start(n).workers);
    forall t: nat ensures Places(Start(n), t) == 0 {
      NoneRunning(Start(n).workers, t);
    }
  }

  lemma {:induction false} NoneExitedAtStart(ws: seq<Worker>)
    requires forall i :: 0 <= i < |ws| ==> ws[i] == Ready
    ensures !SomeExited(ws)
    decreases |ws|
  {
    if ws != [] {
      NoneExitedAtStart(ws[1..]);
    }
  }

  lemma {:induction false} NoneRunning(ws: seq<Worker>, t: nat)
    requires forall i :: 0 <= i < |ws| ==> !ws[i].Running?
    ensures RunningCount(ws, t) == 0
    decreases |ws|
  {
    if ws != [] {
      NoneRunning(ws[1..], t);
    }
  }

  /** Setting one worker to a state other than asleep keeps the pool attended. */
  lemma AttendedSet(p: Pool, w: nat, k: Worker)
    requires Attended(p) && w < |p.workers| && (k.Ready? || k.Running?)
    ensures Attended(Set(p, w, k))
  {
    var ws := p.workers[w := k];
    AwakeAt(ws, w);
    ExitedSet(p.workers, w, k);
    if NoneAsleep(p.workers) {
      AsleepSet(p.workers, w, k);
    }
  }

  /** Every step keeps the pool attended. */
  lemma AttendedKept(p: Pool, e: Event)
    requires Enabled(p, e) && Attended(p)
    ensures Attended(Apply(p, e))
  {
    match e
    case Enqueue =>
    case NotifyOne(w) =>
      if Is(p, w, Asleep) {
        AttendedSet(p, w, Ready);
        AwakeAt(p.workers[w := Ready], w);
      } else if p.tasks != [] {
        NoneLeft(p.workers);
      }
    case BeginStop =>
    case NotifyAll =>
      Woken(p.workers);
      if p.tasks != [] {
        NoneLeft(WakeAll(p.workers));
      }
    case Check(w) =>
      if p.tasks != [] {
        AttendedSet(p, w, Running(p.tasks[0]));
        AwakeAt(Checked(p, w).workers, w);
      } else {
        ExitedSet(p.workers, w, Checked(p, w).workers[w]);
        if NoneAsleep(p.workers) && p.stop {
          AsleepSet(p.workers, w, Exited);
        }
      }
    case Finish(w) => AttendedSet(p, w, Ready);
    case Spurious(w) => AttendedSet(p, w, Ready);
  }

  // ---------------------------------------------------------------- whole runs

  predicate Possible(p: Pool, events: seq<Event>)
    decreases |events|
  {
    events == [] || (Enabled(p, events[0]) && Possible(Apply(p, events[0]), events[1..]))
  }

  function Exec(p: Pool, events: seq<Event>): Pool
    requires Possible(p, events)
    decreases |events|
  {
    if events == [] then p else Exec(Apply(p, events[0]), events[1..])
  }

  ghost predicate Inv(p: Pool) {
    ExactlyOnce(p) && Fifo(p) && Attended(p)
  }

  lemma StepKeeps(p: Pool, e: Event)
    requires Enabled(p, e) && Inv(p)
    ensures Inv(Apply(p, e))
  {
    AttendedKept(p, e);
    FifoKept(p, e);
    forall t: nat ensures Places(Apply(p, e), t) == if t < Apply(p, e).enqueued then 1 else 0 {
      PlacesKept(p, e, t);
    }
  }

  lemma {:induction false} RunKeeps(p: Pool, events: seq<Event>)
    requires Inv(p) && Possible(p, events)
    ensures Inv(Exec(p, events))
    decreases |events|
  {
    if events != [] {
      StepKeeps(p, events[0]);
      RunKeeps(Apply(p, events[0]), events[1..]);
    }
  }

  predicate AllAsleep(ws: seq<Worker>) {
    ws == [] || (ws[0] == Asleep && AllAsleep(ws[1..]))
  }

  predicate AllExited(ws: seq<Worker>) {
    ws == [] || (ws[0] == Exited && AllExited(ws[1..]))
  }

  lemma {:induction false} AsleepNotAwake(ws: seq<Worker>)
    requires AllAsleep(ws)
    ensures !SomeAwake(ws)
    decreases |ws|
  {
    if ws != [] {
      AsleepNotAwake(ws[1..]);
    }
  }

  lemma {:induction false} ExitedNotRunning(ws: seq<Worker>, t: nat)
    requires AllExited(ws)
    ensures RunningCount(ws, t) == 0
    decreases |ws|
  {
    if ws != [] {
      ExitedNotRunning(ws[1..], t);
    }
  }

  /** In every run of a pool with workers: each enqueued task is in exactly one place; there are
      never queued tasks with everybody asleep and no notification to come; and once everybody
      has left, every task was done exactly once. */
  lemma EveryRun(n: nat, events: seq<Event>)
    requires n > 0 && Possible(Start(n), events)
    ensures var p := Exec(Start(n), events);
            && Inv(p)
            && !(p.tasks != [] && AllAsleep(p.workers) && p.owedOne == 0)
            && (AllExited(p.workers) ==> AllDone(p))
  {
    var p := Exec(Start(n), events);
    StartHolds(n);
    RunKeeps(Start(n), events);
    if AllAsleep(p.workers) {
      AsleepNotAwake(p.workers);
    }
    if AllExited(p.workers) {
      ExitedIsDone(p);
    }
  }

  /** Nothing is queued, and every task enqueued was done exactly once. */
  ghost predicate AllDone(p: Pool) {
    p.tasks == [] && forall t: nat :: Count(p.done, t) == if t < p.enqueued then 1 else 0
  }

  lemma ExitedIsDone(p: Pool)
    requires Inv(p) && AllExited(p.workers)
    ensures AllDone(p)
  {
    forall t: nat ensures Count(p.done, t) == if t < p.enqueued then 1 else 0 {
      ExitedNotRunning(p.workers, t);
      assert Places(p, t) == if t < p.enqueued then 1 else 0;
    }
  }

  // ---------------------------------------------------------------- no deadlock, and shutdown

  lemma {:induction false} FindAwake(ws: seq<Worker>) returns (w: nat)
    requires SomeAwake(ws)
    ensures w < |ws| && (ws[w].Ready? || ws[w].Running?)
    decreases |ws|
  {
    if ws[0].Ready? || ws[0].Running? {
      w := 0;
    } else {
      var v := FindAwake(ws[1..]);
      w := v + 1;
    }
  }

  lemma {:induction false} FindAsleep(ws: seq<Worker>) returns (w: nat)
    requires !NoneAsleep(ws)
    ensures w < |ws| && ws[w] == Asleep
    decreases |ws|
  {
    if ws[0] == Asleep {
      w := 0;
    } else {
      var v := FindAsleep(ws[1..]);
      w := v + 1;
    }
  }

  lemma {:induction false} SomebodyLeft(ws: seq<Worker>)
    requires NoneAsleep(ws) && !AllExited(ws)
    ensures SomeAwake(ws)
    decreases |ws|
  {
    if ws[0].Exited? {
      SomebodyLeft(ws[1..]);
    }
  }

  /** A step the pool takes by itself, without a caller and without a spurious wake-up. */
  predicate OwnStep(e: Event) {
    e.NotifyOne? || e.NotifyAll? || e.Check? || e.Finish?
  }

  /** There is always a next step while tasks are queued or the shutdown is not complete. */
  lemma NeverStuck(p: Pool) returns (e: Event)
    requires Attended(p) && (p.tasks != [] || (p.stop && !AllExited(p.workers)))
    ensures OwnStep(e) && Enabled(p, e)
  {
    if p.owedAll {
      e := NotifyAll;
    } else if p.owedOne > 0 {
      if NoneAsleep(p.workers) {
        e := NotifyOne(0);
      } else {
        var w := FindAsleep(p.workers);
        e := NotifyOne(w);
      }
    } else {
      if p.tasks == [] {
        SomebodyLeft(p.workers);
      }
      var w := FindAwake(p.workers);
      e := if p.workers[w].Ready? then Check(w) else Finish(w);
    }
  }

  function Effort(ws: seq<Worker>): nat {
    if ws == [] then 0 else
    (match ws[0] case Asleep => 2 case Ready => 1 case Running(_) => 2 case Exited => 0) + Effort(ws[1..])
  }

  /** How much is left to do in a stopped pool. */
  function Remaining(p: Pool): nat {
    3 * |p.tasks| + Effort(p.workers) + p.owedOne + if p.owedAll then 1 else 0
  }

  lemma {:induction false} EffortSet(ws: seq<Worker>, w: nat, k: Worker)
    requires w < |ws|
    ensures Effort(ws[w := k]) + Effort([ws[w]]) == Effort(ws) + Effort([k])
    decreases |ws|
  {
    if w > 0 {
      assert ws[w := k][1..] == ws[1..][w - 1 := k];
      EffortSet(ws[1..], w - 1, k);
    } else {
      assert ws[w := k][1..] == ws[1..];
      assert [ws[0]][1..] == [] && [k][1..] == [];
    }
  }

  lemma {:induction false} EffortWake(ws: seq<Worker>)
    ensures Effort(WakeAll(ws)) <= Effort(ws)
    decreases |ws|
  {
    if ws != [] {
      EffortWake(ws[1..]);
      assert WakeAll(ws)[1..] == WakeAll(ws[1..]);
    }
  }

  /** After the stop every step, spurious wake-ups included, brings the end nearer. */
  lemma StopProgress(p: Pool, e: Event)
    requires p.stop && Enabled(p, e) && !e.Enqueue?
    ensures Apply(p, e).stop && Remaining(Apply(p, e)) < Remaining(p)
  {
    match e
    case NotifyOne(w) =>
      if Is(p, w, Asleep) {
        EffortSet(p.workers, w, Ready);
      }
    case NotifyAll => EffortWake(p.workers);
    case Check(w) => EffortSet(p.workers, w, Checked(p, w).workers[w]);
    case Finish(w) => EffortSet(p.workers, w, Ready);
    case Spurious(w) => EffortSet(p.workers, w, Ready);
    case BeginStop =>
  }

  ghost predicate NoEnqueue(events: seq<Event>) {
    forall i :: 0 <= i < |events| ==> !events[i].Enqueue?
  }

  /** So the destructor's join returns: after the stop no run is longer than what remains. A
      rejected enqueue changes nothing and is not counted. */
  lemma {:induction false} ShutdownEnds(p: Pool, events: seq<Event>)
    requires p.stop && Possible(p, events) && NoEnqueue(events)
    ensures |events| + Remaining(Exec(p, events)) <= Remaining(p)
    decreases |events|
  {
    if events != [] {
      assert !events[0].Enqueue?;
      StopProgress(p, events[0]);
      ShutdownEnds(Apply(p, events[0]), events[1..]);
    }
  }

  /** No step of the pool's own is possible. */
  ghost predicate AtRest(p: Pool) {
    forall e :: OwnStep(e) ==> !Enabled(p, e)
  }

  /** A pool that has stopped and come to rest, after any run, is finished: everybody left, nothing
      is queued, and every task enqueued was done exactly once. */
  lemma StoppedIsDone(n: nat, events: seq<Event>)
    requires n > 0 && Possible(Start(n), events) && Exec(Start(n), events).stop && AtRest(Exec(Start(n), events))
    ensures Finished(Exec(Start(n), events))
  {
    var p := Exec(Start(n), events);
    EveryRun(n, events);
    if !AllExited(p.workers) {
      var e := NeverStuck(p);
    }
  }

  ghost predicate Finished(p: Pool) {
    AllExited(p.workers) && AllDone(p)
  }

  ghost predicate AllOwn(events: seq<Event>) {
    forall i :: 0 <= i < |events| ==> OwnStep(events[i])
  }

  /** From every stopped state of a run, some steps of the pool's own lead there, at most as many as
      remain; no longer way exists either. */
  lemma {:induction false} ReachesEnd(p: Pool) returns (events: seq<Event>)
    requires Inv(p) && p.stop
    ensures Possible(p, events) && AllOwn(events) && |events| <= Remaining(p) && Finished(Exec(p, events))
    decreases Remaining(p)
  {
    if AllExited(p.workers) {
      events := [];
      ExitedIsDone(p);
    } else {
      var e := NeverStuck(p);
      StepKeeps(p, e);
      StopProgress(p, e);
      var rest := ReachesEnd(Apply(p, e));
      events := [e] + rest;
      assert events[1..] == rest;
    }
  }

  // ---------------------------------------------------------------- catching up without a shutdown

  function Toil(ws: seq<Worker>): nat {
    if ws == [] then 0 else
    (match ws[0] case Asleep => 0 case Ready => 1 case Running(_) => 2 case Exited => 0) + Toil(ws[1..])
  }

  /** How much a running pool has to do before it can rest. */
  function Pending(p: Pool): nat {
    2 * |p.tasks| + Toil(p.workers) + 2 * p.owedOne
  }

  lemma {:induction false} ToilSet(ws: seq<Worker>, w: nat, k: Worker)
    requires w < |ws|
    ensures Toil(ws[w := k]) + Toil([ws[w]]) == Toil(ws) + Toil([k])
    decreases |ws|
  {
    if w > 0 {
      assert ws[w := k][1..] == ws[1..][w - 1 := k];
      ToilSet(ws[1..], w - 1, k);
    } else {
      assert ws[w := k][1..] == ws[1..];
      assert [ws[0]][1..] == [] && [k][1..] == [];
    }
  }

  /** Every step of a running pool's own brings its rest nearer. */
  lemma OwnProgress(p: Pool, e: Event)
    requires !p.stop && !p.owedAll && Enabled(p, e) && OwnStep(e)
    ensures !Apply(p, e).stop && !Apply(p, e).owedAll && Pending(Apply(p, e)) < Pending(p)
  {
    match e
    case NotifyOne(w) =>
      if Is(p, w, Asleep) {
        ToilSet(p.workers, w, Ready);
      }
    case Check(w) => ToilSet(p.workers, w, Checked(p, w).workers[w]);
    case Finish(w) => ToilSet(p.workers, w, Ready);
  }

  /** So left alone it comes to rest, whatever its steps: no run of its own steps is longer than what is
      pending. */
  lemma {:induction false} LeftAloneRests(p: Pool, events: seq<Event>)
    requires Attended(p) && !p.stop && Possible(p, events) && AllOwn(events)
    ensures |events| + Pending(Exec(p, events)) <= Pending(p)
    decreases |events|
  {
    if events != [] {
      assert OwnStep(events[0]);
      OwnProgress(p, events[0]);
      AttendedKept(p, events[0]);
      LeftAloneRests(Apply(p, events[0]), events[1..]);
    }
  }

  /** And at rest, stopped or not, everything is done. */
  lemma RestIsDone(p: Pool)
    requires Inv(p) && AtRest(p)
    ensures AllDone(p)
  {
    if p.tasks != [] {
      var e := NeverStuck(p);
    }
    forall t: nat ensures Count(p.done, t) == if t < p.enqueued then 1 else 0 {
      RestNotRunning(p);
      NoneRunning(p.workers, t);
      assert Places(p, t) == if t < p.enqueued then 1 else 0;
    }
  }

  lemma RestNotRunning(p: Pool)
    requires AtRest(p)
    ensures forall w :: 0 <= w < |p.workers| ==> !p.workers[w].Running?
  {
    forall w | 0 <= w < |p.workers| ensures !p.workers[w].Running? {
      assert OwnStep(Finish(w));
    }
  }

  /** From every state of a run, stopped or not, some steps of the pool's own lead to a state in which
      nothing is queued and every task enqueued was done exactly once. */
  lemma {:induction false} CatchesUp(p: Pool) returns (events: seq<Event>)
    requires Inv(p)
    ensures Possible(p, events) && AllOwn(events) && AllDone(Exec(p, events))
    decreases Pending(p)
  {
    if p.stop {
      events := ReachesEnd(p);
    } else if AtRest(p) {
      RestIsDone(p);
      events := [];
    } else {
      var e :| OwnStep(e) && Enabled(p, e);
      StepKeeps(p, e);
      OwnProgress(p, e);
      var rest := CatchesUp(Apply(p, e));
      events := [e] + rest;
      assert events[1..] == rest;
    }
  }

  // ---------------------------------------------------------------- one notification for each task

  function Notified(events: seq<Event>): nat {
    if events == [] then 0 else (if events[0].NotifyOne? then 1 else 0) + Notified(events[1..])
  }

  /** `enqueue` is always possible. In a running pool it puts one more task at the end of the queue, in a stopped
      one it is refused. */
  lemma EnqueueExact(p: Pool)
    ensures Enabled(p, Enqueue)
    ensures var r := Apply(p, Enqueue);
            && r.workers == p.workers && r.stop == p.stop && r.owedAll == p.owedAll && r.done == p.done
            && (if p.stop then r == p else r.tasks == p.tasks + [p.enqueued] && r.enqueued == p.enqueued + 1)
  {
  }

  /** Every task enqueued is followed by one call of `notify_one`, made or still to come. */
  lemma {:induction false} NotifiesBalance(p: Pool, events: seq<Event>)
    requires Possible(p, events)
    ensures Exec(p, events).owedOne + Notified(events) == p.owedOne + (Exec(p, events).enqueued - p.enqueued)
    decreases |events|
  {
    if events != [] {
      NotifiesBalance(Apply(p, events[0]), events[1..]);
    }
  }

  lemma OneNotificationEach(n: nat, events: seq<Event>)
    requires Possible(Start(n), events)
    ensures Exec(Start(n), events).owedOne + Notified(events) == Exec(Start(n), events).enqueued
  {
    NotifiesBalance(Start(n), events);
  }

  // ---------------------------------------------------------------- the order of starts

  /** The tasks taken from the queue during a run, in order. */
  function Starts(p: Pool, events: seq<Event>): seq<nat>
    requires Possible(p, events)
    decreases |events|
  {
    if events == [] then [] else
    (if events[0].Check? && p.tasks != [] then [p.tasks[0]] else []) + Starts(Apply(p, events[0]), events[1..])
  }

  /** How many tasks were taken so far. */
  function Taken(p: Pool): int {
    p.enqueued - |p.tasks|
  }

  /** Tasks are started in the order in which they were enqueued. */
  lemma {:induction false} StartsInOrder(p: Pool, events: seq<Event>)
    requires Fifo(p) && Possible(p, events)
    ensures forall i :: 0 <= i < |Starts(p, events)| ==> Starts(p, events)[i] == Taken(p) + i
    decreases |events|
  {
    if events != [] {
      FifoKept(p, events[0]);
      StartsInOrder(Apply(p, events[0]), events[1..]);
    }
  }
}
