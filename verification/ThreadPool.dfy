/**
 The worker pool of network/thread_pool.{h,cc} as a protocol of atomic steps: one step per
 critical section of `mutex_`, one per action a worker takes outside it.

 `Pool` is the shared state plus the control state of every thread ever created. `Apply` is
 what the code does in one step, `Enabled` says when the step can happen. The class at the end
 updates the same fields in place and is proved to perform exactly these steps.
 */
module ThreadPoolProtocol {

  /** The number of values of the source's `unsigned`. */
  const UNSIGNED: nat := 0x1_0000_0000

  /** `User` is a closure given to ExecuteTask; `Stop` is the monitor's `working_ = false`. */
  datatype Task = User(id: nat) | Stop

  /** Where a worker thread stands: about to lock `mutex_` (started or looping), asleep in
      `cond_.wait`, woken but not yet holding the mutex, running a task, past its loop after a
      Stop but before `--pendingStopSignal_`, or finished. */
  datatype Worker = Ready | Blocked | Notified | Running(id: nat) | Retiring | Exited

  /** `accepted`, `started` and `finished` record history; the code never reads them. */
  datatype Pool = Pool(
    waiters: nat, shutdown: bool, tasks: seq<Task>, workers: seq<Worker>,
    pending: nat, maxIdle: nat,
    accepted: seq<nat>, started: seq<nat>, finished: multiset<nat>)

  datatype Step =
    | Submit(id: nat, wake: nat)      // ExecuteTask; `wake` is the thread notify_one picks
    | Lock(w: nat)                    // a worker's whole critical section
    | Spurious(w: nat)                // cond_.wait returns by itself
    | Finish(w: nat)                  // task() returns
    | Retire(w: nat)                  // --pendingStopSignal_ after the loop
    | Monitor(wakes: seq<nat>)        // one round of _MonitorRoutine
    | SetMaxIdle(m: nat)              // SetMaxIdleThread
    | BeginJoin                       // the critical section of JoinAll

  /** The constructor sets `maxIdleThread_` to the number of cores, at least one. */
  function Init(maxIdle: nat): Pool { Pool(0, false, [], [], 0, maxIdle, [], [], multiset{}) }

  // ---------------------------------------------------------------- counting workers

  predicate Awaits(w: Worker) { w.Ready? || w.Notified? }
  predicate Awake(w: Worker) { w.Ready? || w.Notified? || w.Running? }
  predicate Live(w: Worker) { Awake(w) || w.Blocked? }

  function Count(ws: seq<Worker>, p: Worker -> bool): nat {
    if ws == [] then 0 else (if p(ws[0]) then 1 else 0) + Count(ws[1..], p)
  }

  const IS_BLOCKED := (w: Worker) => w.Blocked?
  const IS_NOTIFIED := (w: Worker) => w.Notified?
  const IS_RETIRING := (w: Worker) => w.Retiring?

  /** The ids of the tasks being run. */
  function RunningBag(ws: seq<Worker>): multiset<nat> {
    if ws == [] then multiset{} else Bag(ws[0]) + RunningBag(ws[1..])
  }

  function Bag(w: Worker): multiset<nat> { if w.Running? then multiset{w.id} else multiset{} }

  function Stops(ts: seq<Task>): nat {
    if ts == [] then 0 else (if ts[0].Stop? then 1 else 0) + Stops(ts[1..])
  }

  function Users(ts: seq<Task>): seq<nat> {
    if ts == [] then [] else (if ts[0].User? then [ts[0].id] else []) + Users(ts[1..])
  }

  // ---------------------------------------------------------------- the steps

  function NotifyOne(ws: seq<Worker>, wake: nat): seq<Worker> {
    if wake < |ws| && ws[wake].Blocked? then ws[wake := Notified] else ws
  }

  /** notify_one unblocks a waiting thread when there is one. */
  predicate WakeOk(ws: seq<Worker>, wake: nat) {
    Count(ws, IS_BLOCKED) > 0 ==> wake < |ws| && ws[wake].Blocked?
  }

  function NotifyAll(ws: seq<Worker>): seq<Worker> {
    seq(|ws|, i requires 0 <= i < |ws| => if ws[i].Blocked? then Notified else ws[i])
  }

  function NotifyEach(ws: seq<Worker>, wakes: seq<nat>): seq<Worker>
    decreases |wakes|
  {
    if wakes == [] then ws else NotifyEach(NotifyOne(ws, wakes[0]), wakes[1..])
  }

  /** `k` calls of notify_one wake one blocked thread each until none is left. */
  predicate WakesOk(ws: seq<Worker>, wakes: seq<nat>, k: nat)
    decreases |wakes|
  {
    if wakes == [] then k == 0 || Count(ws, IS_BLOCKED) == 0
    else
      && k > 0 && wakes[0] < |ws| && ws[wakes[0]].Blocked?
      && WakesOk(NotifyOne(ws, wakes[0]), wakes[1..], k - 1)
  }

  /** How many Stop tasks one monitor round queues: `nw = waiters_ - pendingStopSignal_` in
      unsigned arithmetic, then one for each value of `nw` above `maxIdleThread_`. */
  function MonitorStops(waiters: nat, pending: nat, maxIdle: nat): nat {
    var nw := (waiters - pending) % UNSIGNED;
    if nw > maxIdle then nw - maxIdle else 0
  }

  function StopTasks(k: nat): seq<Task> { seq(k, _ => Stop) }

  predicate Enabled(s: Pool, st: Step) {
    match st
    case Submit(_, wake) => !s.shutdown ==> WakeOk(if s.waiters == 0 then s.workers + [Ready] else s.workers, wake)
    case Lock(w) => w < |s.workers| && Awaits(s.workers[w])
    case Spurious(w) => w < |s.workers| && s.workers[w].Blocked?
    case Finish(w) => w < |s.workers| && s.workers[w].Running?
    case Retire(w) => w < |s.workers| && s.workers[w].Retiring? && s.pending > 0
    case Monitor(wakes) => !s.shutdown ==> WakesOk(s.workers, wakes, MonitorStops(s.waiters, s.pending, s.maxIdle))
    case SetMaxIdle(_) => true
    case BeginJoin => true
  }

  function Apply(s: Pool, st: Step): Pool
    requires Enabled(s, st)
  {
    match st
    case Submit(id, wake) =>
      if s.shutdown then s else
      var ws := if s.waiters == 0 then s.workers + [Ready] else s.workers;
      s.(tasks := s.tasks + [User(id)], workers := NotifyOne(ws, wake), accepted := s.accepted + [id])
    case Lock(w) => LockStep(s, w)
    case Spurious(w) => s.(workers := s.workers[w := Notified])
    case Finish(w) =>
      s.(workers := s.workers[w := Ready], finished := s.finished + multiset{s.workers[w].id})
    case Retire(w) => s.(workers := s.workers[w := Exited], pending := s.pending - 1)
    case Monitor(wakes) =>
      if s.shutdown then s else
      var k := MonitorStops(s.waiters, s.pending, s.maxIdle);
      s.(tasks := s.tasks + StopTasks(k), workers := NotifyEach(s.workers, wakes), pending := s.pending + k)
    case SetMaxIdle(m) => if 0 < m <= 256 then s.(maxIdle := m) else s
    case BeginJoin => if s.shutdown then s else s.(shutdown := true, workers := NotifyAll(s.workers))
  }

  /** A worker with the mutex: count itself as a waiter if it is not counted yet, test the
      wait predicate, and sleep, leave, or take the first task. */
  function LockStep(s: Pool, w: nat): Pool
    requires Enabled(s, Lock(w))
  {
    var entered := s.waiters + (if s.workers[w].Ready? then 1 else 0);
    if !s.shutdown && s.tasks == [] then s.(waiters := entered, workers := s.workers[w := Blocked])
    else
      var left := if entered > 0 then entered - 1 else UNSIGNED - 1;
      if s.tasks == [] then s.(waiters := left, workers := s.workers[w := Exited])
      else match s.tasks[0]
        case Stop => s.(waiters := left, tasks := s.tasks[1..], workers := s.workers[w := Retiring])
        case User(id) =>
          s.(waiters := left, tasks := s.tasks[1..], workers := s.workers[w := Running(id)],
             started := s.started + [id])
  }

  // ---------------------------------------------------------------- runs

  /** Every step of the run can happen where it happens. */
  ghost predicate Possible(s: Pool, run: seq<Step>)
    decreases |run|
  {
    run != [] ==> Enabled(s, run[0]) && Possible(Apply(s, run[0]), run[1..])
  }

  ghost function After(s: Pool, run: seq<Step>): Pool
    requires Possible(s, run)
    decreases |run|
  {
    if run == [] then s else After(Apply(s, run[0]), run[1..])
  }

  /** No monitor round of the run starts with fewer waiters than pending stop signals. */
  predicate Guard(s: Pool, st: Step) { st.Monitor? && !s.shutdown ==> s.waiters >= s.pending }

  ghost predicate Guarded(s: Pool, run: seq<Step>)
    requires Possible(s, run)
    decreases |run|
  {
    run != [] ==> Guard(s, run[0]) && Guarded(Apply(s, run[0]), run[1..])
  }

  // ---------------------------------------------------------------- the invariant

  predicate Inv(s: Pool) {
    && s.waiters == Count(s.workers, IS_BLOCKED) + Count(s.workers, IS_NOTIFIED)
    && s.pending == Stops(s.tasks) + Count(s.workers, IS_RETIRING)
    && (Count(s.workers, IS_BLOCKED) > 0 ==> !s.shutdown && |s.tasks| <= Count(s.workers, Awaits))
    && (Stops(s.tasks) > 0 ==> Count(s.workers, Live) >= Stops(s.tasks) + 1)
    && (s.tasks != [] ==> Count(s.workers, Live) > 0)
    && s.maxIdle > 0
    && s.accepted == s.started + Users(s.tasks)
    && multiset(s.started) == s.finished + RunningBag(s.workers)
  }

  // ---------------------------------------------------------------- lemmas on counting

  lemma {:induction false} CountUpdate(ws: seq<Worker>, i: nat, w: Worker, p: Worker -> bool)
    requires i < |ws|
    ensures Count(ws[i := w], p) + (if p(ws[i]) then 1 else 0) == Count(ws, p) + (if p(w) then 1 else 0)
  {
    if i == 0 {
      assert ws[i := w][1..] == ws[1..];
    } else {
      CountUpdate(ws[1..], i - 1, w, p);
      assert ws[i := w][1..] == ws[1..][i - 1 := w];
    }
  }

  lemma {:induction false} CountAppend(ws: seq<Worker>, w: Worker, p: Worker -> bool)
    ensures Count(ws + [w], p) == Count(ws, p) + (if p(w) then 1 else 0)
  {
    if ws != [] {
      assert (ws + [w])[1..] == ws[1..] + [w];
      CountAppend(ws[1..], w, p);
    } else {
      assert ws + [w] == [w];
    }
  }

  lemma {:induction false} CountWitness(ws: seq<Worker>, p: Worker -> bool)
    ensures Count(ws, p) > 0 <==> exists i :: 0 <= i < |ws| && p(ws[i])
  {
    if ws != [] {
      CountWitness(ws[1..], p);
      if Count(ws[1..], p) > 0 {
        var i :| 0 <= i < |ws[1..]| && p(ws[1..][i]);
        assert p(ws[i + 1]);
      }
      if exists i :: 0 <= i < |ws| && p(ws[i]) {
        var i :| 0 <= i < |ws| && p(ws[i]);
        if i > 0 { assert p(ws[1..][i - 1]); }
      }
    }
  }

  lemma {:induction false} CountSum(ws: seq<Worker>, p: Worker -> bool, q: Worker -> bool, r: Worker -> bool)
    requires forall w :: p(w) <==> q(w) || r(w)
    requires forall w :: !(q(w) && r(w))
    ensures Count(ws, p) == Count(ws, q) + Count(ws, r)
  {
    if ws != [] { CountSum(ws[1..], p, q, r); }
  }

  lemma {:induction false} CountMono(ws: seq<Worker>, p: Worker -> bool, q: Worker -> bool)
    requires forall w :: p(w) ==> q(w)
    ensures Count(ws, p) <= Count(ws, q) <= |ws|
  {
    if ws != [] { CountMono(ws[1..], p, q); }
  }

  lemma BagAlgebra(x: multiset<nat>, r: multiset<nat>, r': multiset<nat>, a: multiset<nat>, b: multiset<nat>)
    requires r' + a == r + b
    ensures (x + r') + a == (x + r) + b
  {
    assert forall id :: ((x + r') + a)[id] == x[id] + (r' + a)[id];
    assert forall id :: ((x + r) + b)[id] == x[id] + (r + b)[id];
  }

  lemma {:induction false} BagUpdate(ws: seq<Worker>, i: nat, w: Worker)
    requires i < |ws|
    ensures RunningBag(ws[i := w]) + Bag(ws[i]) == RunningBag(ws) + Bag(w)
  {
    var tail := RunningBag(ws[1..]);
    if i == 0 {
      assert ws[i := w][1..] == ws[1..];
      assert (Bag(w) + tail) + Bag(ws[0]) == (Bag(ws[0]) + tail) + Bag(w);
    } else {
      BagUpdate(ws[1..], i - 1, w);
      assert ws[i := w][1..] == ws[1..][i - 1 := w];
      BagAlgebra(Bag(ws[0]), tail, RunningBag(ws[1..][i - 1 := w]), Bag(ws[i]), Bag(w));
    }
  }

  lemma BagIdle(ws: seq<Worker>, i: nat, w: Worker)
    requires i < |ws| && !ws[i].Running? && !w.Running?
    ensures RunningBag(ws[i := w]) == RunningBag(ws)
  {
    BagUpdate(ws, i, w);
    assert forall b: multiset<nat> :: b + multiset{} == b;
  }

  /** The history balance survives a change of one worker that starts or finishes a task. */
  lemma HistoryKeeps(s: Pool, s': Pool, i: nat, w: Worker)
    requires i < |s.workers| && s'.workers == s.workers[i := w]
    requires multiset(s.started) == s.finished + RunningBag(s.workers)
    requires s'.finished == s.finished + Bag(s.workers[i])
    requires s'.started == if w.Running? then s.started + [w.id] else s.started
    ensures multiset(s'.started) == s'.finished + RunningBag(s'.workers)
  {
    hide RunningBag;
    BagUpdate(s.workers, i, w);
    assert multiset(s'.started) == multiset(s.started) + Bag(w);
    BagAlgebra(s.finished, RunningBag(s.workers), RunningBag(s'.workers), Bag(s.workers[i]), Bag(w));
    assert (s.finished + RunningBag(s'.workers)) + Bag(s.workers[i]) == s'.finished + RunningBag(s'.workers);
  }

  lemma {:induction false} BagAppend(ws: seq<Worker>, w: Worker)
    requires !w.Running?
    ensures RunningBag(ws + [w]) == RunningBag(ws)
  {
    if ws != [] {
      assert (ws + [w])[1..] == ws[1..] + [w];
      BagAppend(ws[1..], w);
    } else {
      assert ws + [w] == [w];
    }
  }

  lemma {:induction false} TasksAppend(a: seq<Task>, b: seq<Task>)
    ensures Stops(a + b) == Stops(a) + Stops(b)
    ensures Users(a + b) == Users(a) + Users(b)
  {
    if a == [] {
      assert a + b == b;
    } else {
      assert (a + b)[1..] == a[1..] + b;
      TasksAppend(a[1..], b);
    }
  }

  lemma {:induction false} StopTasksCount(k: nat)
    ensures Stops(StopTasks(k)) == k && Users(StopTasks(k)) == [] && |StopTasks(k)| == k
  {
    if k > 0 {
      assert StopTasks(k)[1..] == StopTasks(k - 1);
      StopTasksCount(k - 1);
    }
  }

  /** All the counts a change of one worker touches. */
  lemma WorkerChanges(ws: seq<Worker>, i: nat, w: Worker)
    requires i < |ws|
    ensures var ws' := ws[i := w];
      && Count(ws', IS_BLOCKED) + (if ws[i].Blocked? then 1 else 0) == Count(ws, IS_BLOCKED) + (if w.Blocked? then 1 else 0)
      && Count(ws', IS_NOTIFIED) + (if ws[i].Notified? then 1 else 0) == Count(ws, IS_NOTIFIED) + (if w.Notified? then 1 else 0)
      && Count(ws', IS_RETIRING) + (if ws[i].Retiring? then 1 else 0) == Count(ws, IS_RETIRING) + (if w.Retiring? then 1 else 0)
      && Count(ws', Awaits) + (if Awaits(ws[i]) then 1 else 0) == Count(ws, Awaits) + (if Awaits(w) then 1 else 0)
      && Count(ws', Live) + (if Live(ws[i]) then 1 else 0) == Count(ws, Live) + (if Live(w) then 1 else 0)
  {
    CountUpdate(ws, i, w, IS_BLOCKED);
    CountUpdate(ws, i, w, IS_NOTIFIED);
    CountUpdate(ws, i, w, IS_RETIRING);
    CountUpdate(ws, i, w, Awaits);
    CountUpdate(ws, i, w, Live);
  }

  lemma WorkerJoins(ws: seq<Worker>)
    ensures var ws' := ws + [Ready];
      && Count(ws', IS_BLOCKED) == Count(ws, IS_BLOCKED)
      && Count(ws', IS_NOTIFIED) == Count(ws, IS_NOTIFIED)
      && Count(ws', IS_RETIRING) == Count(ws, IS_RETIRING)
      && Count(ws', Awaits) == Count(ws, Awaits) + 1
      && Count(ws', Live) == Count(ws, Live) + 1
      && RunningBag(ws') == RunningBag(ws)
  {
    CountAppend(ws, Ready, IS_BLOCKED);
    CountAppend(ws, Ready, IS_NOTIFIED);
    CountAppend(ws, Ready, IS_RETIRING);
    CountAppend(ws, Ready, Awaits);
    CountAppend(ws, Ready, Live);
    BagAppend(ws, Ready);
  }

  // ---------------------------------------------------------------- each step keeps the invariant

  lemma OneUser(id: nat)
    ensures Stops([User(id)]) == 0 && Users([User(id)]) == [id]
  {
    assert [User(id)][1..] == [];
  }

  lemma FirstTask(ts: seq<Task>)
    ensures ts == [] ==> Stops(ts) == 0 && Users(ts) == []
    ensures ts != [] ==> Stops(ts) == (if ts[0].Stop? then 1 else 0) + Stops(ts[1..])
    ensures ts != [] ==> Users(ts) == (if ts[0].User? then [ts[0].id] else []) + Users(ts[1..])
  {}

  lemma SubmitKeeps(s: Pool, id: nat, wake: nat)
    requires Inv(s) && Enabled(s, Submit(id, wake))
    ensures Inv(Apply(s, Submit(id, wake)))
  {
    hide Count, Stops, Users, RunningBag;
    if !s.shutdown {
      var ws := if s.waiters == 0 then s.workers + [Ready] else s.workers;
      WorkerJoins(s.workers);
      TasksAppend(s.tasks, [User(id)]);
      OneUser(id);
      assert s.accepted + [id] == s.started + (Users(s.tasks) + [id]);
      CountMono(s.workers, IS_BLOCKED, Live);
      CountMono(s.workers, IS_NOTIFIED, Live);
      if wake < |ws| && ws[wake].Blocked? {
        WorkerChanges(ws, wake, Notified);
        BagIdle(ws, wake, Notified);
      }
      CountWitness(ws, IS_BLOCKED);
    }
  }

  lemma LockKeeps(s: Pool, w: nat)
    requires Inv(s) && Enabled(s, Lock(w))
    ensures Inv(Apply(s, Lock(w)))
  {
    hide Count, Stops, Users, RunningBag;
    FirstTask(s.tasks);
    var s' := Apply(s, Lock(w));
    var now := s'.workers[w];
    WorkerChanges(s.workers, w, now);
    LockHistory(s, w);
    CountWitness(s.workers, Live);
    CountWitness(s.workers, IS_NOTIFIED);
    assert s'.workers == s.workers[w := now];
  }

  lemma {:induction false} LockHistory(s: Pool, w: nat)
    requires Enabled(s, Lock(w))
    requires s.accepted == s.started + Users(s.tasks)
    requires multiset(s.started) == s.finished + RunningBag(s.workers)
    ensures var s' := LockStep(s, w);
      && multiset(s'.started) == s'.finished + RunningBag(s'.workers)
      && s'.accepted == s'.started + Users(s'.tasks)
  {
    hide Count, Stops, Users, RunningBag, WakeOk;
    FirstTask(s.tasks);
    if s.tasks != [] && s.tasks[0].User? {
      HistoryKeeps(s, LockStep(s, w), w, Running(s.tasks[0].id));
      assert s.started + Users(s.tasks) == (s.started + [s.tasks[0].id]) + Users(s.tasks[1..]);
    } else {
      assert LockStep(s, w).workers == s.workers[w := LockStep(s, w).workers[w]];
      BagIdle(s.workers, w, LockStep(s, w).workers[w]);
      if s.tasks != [] { assert [] + Users(s.tasks[1..]) == Users(s.tasks[1..]); }
    }
  }

  lemma WorkerStepKeeps(s: Pool, st: Step)
    requires Inv(s) && Enabled(s, st) && (st.Spurious? || st.Finish? || st.Retire?)
    ensures Inv(Apply(s, st))
  {
    hide Count, Stops, Users, RunningBag;
    var s' := Apply(s, st);
    WorkerChanges(s.workers, st.w, s'.workers[st.w]);
    HistoryKeeps(s, s', st.w, s'.workers[st.w]);
    CountWitness(s.workers, IS_BLOCKED);
  }

  lemma {:induction false} NotifyEachCounts(ws: seq<Worker>, wakes: seq<nat>, k: nat)
    requires WakesOk(ws, wakes, k)
    ensures var ws' := NotifyEach(ws, wakes);
      && Count(ws', IS_BLOCKED) + Count(ws', IS_NOTIFIED) == Count(ws, IS_BLOCKED) + Count(ws, IS_NOTIFIED)
      && (Count(ws', IS_BLOCKED) > 0 ==> Count(ws', Awaits) == Count(ws, Awaits) + k)
      && Count(ws', IS_BLOCKED) <= Count(ws, IS_BLOCKED)
      && Count(ws', IS_RETIRING) == Count(ws, IS_RETIRING)
      && Count(ws', Live) == Count(ws, Live)
      && RunningBag(ws') == RunningBag(ws)
    decreases |wakes|
  {
    if wakes != [] {
      WorkerChanges(ws, wakes[0], Notified);
      BagIdle(ws, wakes[0], Notified);
      NotifyEachCounts(NotifyOne(ws, wakes[0]), wakes[1..], k - 1);
    }
  }

  /** One more of the `k` calls: it wakes the next pick, or nobody when none is blocked. */
  lemma NotifyPicks(ws: seq<Worker>, wakes: seq<nat>, k: nat)
    requires k > 0 && WakesOk(ws, wakes, k)
    ensures var (wake, rest) := if wakes == [] then (0, []) else (wakes[0], wakes[1..]);
      && WakesOk(NotifyOne(ws, wake), rest, k - 1)
      && NotifyEach(NotifyOne(ws, wake), rest) == NotifyEach(ws, wakes)
  {
    CountWitness(ws, IS_BLOCKED);
    if wakes == [] {
      assert |ws| > 0 ==> !IS_BLOCKED(ws[0]);
    }
  }

  lemma NotifiedAll(ws: seq<Worker>, wakes: seq<nat>)
    requires WakesOk(ws, wakes, 0)
    ensures NotifyEach(ws, wakes) == ws
  {}

  lemma StopsQueued(ts: seq<Task>, k: nat)
    ensures ts + StopTasks(0) == ts && ts + StopTasks(k + 1) == (ts + StopTasks(k)) + [Stop]
  {}

  /** A guarded monitor round leaves more than `Stops` live workers. */
  lemma MonitorKeeps(s: Pool, wakes: seq<nat>)
    requires Inv(s) && Enabled(s, Monitor(wakes)) && Guard(s, Monitor(wakes))
    ensures Inv(Apply(s, Monitor(wakes)))
  {
    hide NotifyEach, StopTasks, Count, Stops, Users, RunningBag;
    if !s.shutdown {
      var k := MonitorStops(s.waiters, s.pending, s.maxIdle);
      assert (s.waiters - s.pending) % UNSIGNED <= s.waiters - s.pending;
      NotifyEachCounts(s.workers, wakes, k);
      TasksAppend(s.tasks, StopTasks(k));
      StopTasksCount(k);
      assert Users(s.tasks) + [] == Users(s.tasks);
      WaitersAreLive(s.workers);
    }
  }

  lemma WaitersAreLive(ws: seq<Worker>)
    ensures Count(ws, IS_BLOCKED) + Count(ws, IS_NOTIFIED) <= Count(ws, Live)
  {
    var both := (w: Worker) => w.Blocked? || w.Notified?;
    CountSum(ws, both, IS_BLOCKED, IS_NOTIFIED);
    CountMono(ws, both, Live);
  }

  lemma {:induction false} NotifyAllCounts(ws: seq<Worker>)
    ensures var ws' := NotifyAll(ws);
      && Count(ws', IS_BLOCKED) == 0
      && Count(ws', IS_NOTIFIED) == Count(ws, IS_BLOCKED) + Count(ws, IS_NOTIFIED)
      && Count(ws', IS_RETIRING) == Count(ws, IS_RETIRING)
      && Count(ws', Live) == Count(ws, Live)
      && RunningBag(ws') == RunningBag(ws)
  {
    if ws != [] {
      assert NotifyAll(ws)[1..] == NotifyAll(ws[1..]);
      NotifyAllCounts(ws[1..]);
    }
  }

  lemma StepKeeps(s: Pool, st: Step)
    requires Inv(s) && Enabled(s, st) && Guard(s, st)
    ensures Inv(Apply(s, st))
  {
    match st
    case Submit(id, wake) => SubmitKeeps(s, id, wake);
    case Lock(w) => LockKeeps(s, w);
    case Monitor(wakes) => MonitorKeeps(s, wakes);
    case BeginJoin => NotifyAllCounts(s.workers);
    case SetMaxIdle(_) =>
    case _ => WorkerStepKeeps(s, st);
  }

  /** The invariant holds throughout every guarded run. */
  lemma {:induction false} RunKeeps(s: Pool, run: seq<Step>)
    requires Inv(s) && Possible(s, run) && Guarded(s, run)
    ensures Inv(After(s, run))
    decreases |run|
  {
    if run != [] {
      StepKeeps(s, run[0]);
      RunKeeps(Apply(s, run[0]), run[1..]);
    }
  }

  // ---------------------------------------------------------------- no lost wakeup

  /** Whatever the interleaving, before shutdown a queued task never waits on sleepers alone:
      some worker is running or on its way to the mutex, and while any worker is still asleep
      there are at least as many workers on their way to the mutex as tasks queued. */
  lemma NoLostWakeup(maxIdle: nat, run: seq<Step>)
    requires maxIdle > 0 && Possible(Init(maxIdle), run) && Guarded(Init(maxIdle), run)
    ensures var s := After(Init(maxIdle), run);
      !s.shutdown && s.tasks != [] ==>
        && (exists w :: 0 <= w < |s.workers| && Awake(s.workers[w]))
        && ((exists w :: 0 <= w < |s.workers| && s.workers[w].Blocked?) ==>
              |s.tasks| <= Count(s.workers, Awaits))
  {
    RunKeeps(Init(maxIdle), run);
    var s := After(Init(maxIdle), run);
    CountWitness(s.workers, IS_BLOCKED);
    CountSum(s.workers, Live, Awake, IS_BLOCKED);
    CountWitness(s.workers, Awake);
    CountMono(s.workers, Awaits, Awake);
    assert (exists w :: 0 <= w < |s.workers| && s.workers[w].Blocked?) ==> (exists w :: 0 <= w < |s.workers| && IS_BLOCKED(s.workers[w]));
  }

  // ---------------------------------------------------------------- shutdown

  predicate AllExited(s: Pool) { forall w :: 0 <= w < |s.workers| ==> s.workers[w].Exited? }

  lemma {:induction false} ExitedRunNothing(ws: seq<Worker>)
    requires forall w :: 0 <= w < |ws| ==> ws[w].Exited?
    ensures RunningBag(ws) == multiset{} && Count(ws, Live) == 0
  {
    if ws != [] { ExitedRunNothing(ws[1..]); }
  }

  /** The tasks given to ExecuteTask before JoinAll, in order. */
  function Submitted(run: seq<Step>): seq<nat> {
    if run == [] || run[0].BeginJoin? then []
    else (if run[0].Submit? then [run[0].id] else []) + Submitted(run[1..])
  }

  /** Exactly those are accepted, whatever else happens between them. */
  lemma {:induction false} AcceptedAreSubmitted(s: Pool, run: seq<Step>)
    requires Possible(s, run)
    ensures After(s, run).accepted == s.accepted + if s.shutdown then [] else Submitted(run)
    ensures After(s, run).shutdown <==> s.shutdown || exists i :: 0 <= i < |run| && run[i].BeginJoin?
    decreases |run|
  {
    hide Enabled, LockStep, NotifyOne, NotifyEach, NotifyAll, MonitorStops;
    assert s.accepted + [] == s.accepted;
    if run != [] {
      var s' := Apply(s, run[0]);
      AcceptedAreSubmitted(s', run[1..]);
      StepAccepts(s, run[0]);
      if i :| 0 <= i < |run| && run[i].BeginJoin? {
        if i > 0 { assert run[1..][i - 1].BeginJoin?; }
      }
      Regroup(s.accepted, if run[0].Submit? then [run[0].id] else [], Submitted(run[1..]));
    }
  }

  lemma Regroup(a: seq<nat>, b: seq<nat>, c: seq<nat>)
    ensures (a + b) + c == a + (b + c) && a + [] == a
  {}

  lemma StepAccepts(s: Pool, st: Step)
    requires Enabled(s, st)
    ensures var s' := Apply(s, st);
      && s'.accepted == s.accepted + (if st.Submit? && !s.shutdown then [st.id] else [])
      && (s'.shutdown <==> s.shutdown || st.BeginJoin?)
  {
    hide NotifyOne, NotifyEach, NotifyAll, MonitorStops;
  }

  /** Once JoinAll has seen every worker exit, the queue is empty, the tasks submitted before it
      were started in the order they were submitted, and each ran to its end exactly once. */
  lemma ShutdownDrains(maxIdle: nat, run: seq<Step>)
    requires maxIdle > 0 && Possible(Init(maxIdle), run) && Guarded(Init(maxIdle), run)
    requires var s := After(Init(maxIdle), run); s.shutdown && AllExited(s)
    ensures var s := After(Init(maxIdle), run);
      s.tasks == [] && s.started == Submitted(run) && s.finished == multiset(Submitted(run))
  {
    RunKeeps(Init(maxIdle), run);
    AcceptedAreSubmitted(Init(maxIdle), run);
    assert [] + Submitted(run) == Submitted(run);
    ExitedRunNothing(After(Init(maxIdle), run).workers);
  }

  /** A submit before shutdown queues its task last, and creates a thread exactly when no worker
      is waiting. */
  lemma SubmitCreatesExactly(s: Pool, id: nat, wake: nat)
    requires Inv(s) && Enabled(s, Submit(id, wake)) && !s.shutdown
    ensures var s' := Apply(s, Submit(id, wake));
      && s'.tasks == s.tasks + [User(id)]
      && |s'.workers| == |s.workers| +
           if exists w :: 0 <= w < |s.workers| && (s.workers[w].Blocked? || s.workers[w].Notified?) then 0 else 1
  {
    CountWitness(s.workers, IS_BLOCKED);
    CountWitness(s.workers, IS_NOTIFIED);
    if w :| 0 <= w < |s.workers| && (s.workers[w].Blocked? || s.workers[w].Notified?) {
      assert IS_BLOCKED(s.workers[w]) || IS_NOTIFIED(s.workers[w]);
    }
  }

  /** A guarded monitor round leaves as many idle workers unsignalled as `maxIdleThread_` allows,
      all of them when there are no more; it queues one Stop for each signal, behind the tasks. */
  lemma MonitorLeaves(s: Pool, wakes: seq<nat>)
    requires !s.shutdown && s.waiters < UNSIGNED && Enabled(s, Monitor(wakes)) && Guard(s, Monitor(wakes))
    ensures var s', idle := Apply(s, Monitor(wakes)), s.waiters - s.pending;
      && s'.waiters == s.waiters && s'.waiters - s'.pending == (if idle > s.maxIdle then s.maxIdle else idle)
      && s.tasks <= s'.tasks && |s'.tasks| - |s.tasks| == s'.pending - s.pending == Stops(s'.tasks) - Stops(s.tasks)
  {
    hide NotifyEach, Stops;
    var k := MonitorStops(s.waiters, s.pending, s.maxIdle);
    TasksAppend(s.tasks, StopTasks(k));
    StopTasksCount(k);
  }

  /** Nothing submitted after shutdown is ever accepted, so by ShutdownDrains it never runs;
      shutdown is final and no thread is created after it. */
  lemma {:induction false} RejectedAfterShutdown(s: Pool, run: seq<Step>)
    requires s.shutdown && Possible(s, run)
    ensures var t := After(s, run);
      t.shutdown && t.accepted == s.accepted && |t.workers| == |s.workers| && |t.tasks| <= |s.tasks|
    decreases |run|
  {
    if run != [] { RejectedAfterShutdown(Apply(s, run[0]), run[1..]); }
  }

  predicate WorkerStep(st: Step) { st.Lock? || st.Spurious? || st.Finish? || st.Retire? }

  function WorkerSteps(run: seq<Step>): nat {
    if run == [] then 0 else (if WorkerStep(run[0]) then 1 else 0) + WorkerSteps(run[1..])
  }

  function Work(w: Worker): nat {
    if w.Exited? then 0 else if w.Running? then 2 else 1
  }

  function WorkLeft(ws: seq<Worker>): nat {
    if ws == [] then 0 else Work(ws[0]) + WorkLeft(ws[1..])
  }

  lemma {:induction false} WorkUpdate(ws: seq<Worker>, i: nat, w: Worker)
    requires i < |ws|
    ensures WorkLeft(ws[i := w]) + Work(ws[i]) == WorkLeft(ws) + Work(w)
  {
    if i == 0 {
      assert ws[i := w][1..] == ws[1..];
    } else {
      WorkUpdate(ws[1..], i - 1, w);
      assert ws[i := w][1..] == ws[1..][i - 1 := w];
    }
  }

  /** JoinAll returns: after shutdown the workers together take at most
      `2 * |tasks| + WorkLeft` more steps, in any interleaving. */
  lemma {:induction false} JoinTerminates(s: Pool, run: seq<Step>)
    requires Inv(s) && s.shutdown && Possible(s, run)
    ensures WorkerSteps(run) <= 2 * |s.tasks| + WorkLeft(s.workers)
    decreases |run|
  {
    hide Inv, Enabled, Apply, WorkLeft;
    if run != [] {
      StepKeeps(s, run[0]);
      StepWorks(s, run[0]);
      JoinTerminates(Apply(s, run[0]), run[1..]);
    }
  }

  /** A worker's step after shutdown uses up some of the work. */
  lemma {:induction false} StepWorks(s: Pool, st: Step)
    requires Inv(s) && s.shutdown && Enabled(s, st)
    ensures var s' := Apply(s, st);
      s'.shutdown && 2 * |s'.tasks| + WorkLeft(s'.workers) + (if WorkerStep(st) then 1 else 0) <= 2 * |s.tasks| + WorkLeft(s.workers)
  {
    hide Count, Stops, Users, RunningBag, WorkLeft;
    if WorkerStep(st) {
      var s' := Apply(s, st);
      CountWitness(s.workers, IS_BLOCKED);
      assert !IS_BLOCKED(s.workers[st.w]);
      WorkUpdate(s.workers, st.w, s'.workers[st.w]);
      assert s'.workers == s.workers[st.w := s'.workers[st.w]];
    }
  }

  /** ... and never gets stuck before every worker has exited. */
  lemma JoinProgresses(s: Pool)
    requires Inv(s) && s.shutdown && !AllExited(s)
    ensures exists st :: WorkerStep(st) && Enabled(s, st)
  {
    var w :| 0 <= w < |s.workers| && !s.workers[w].Exited?;
    CountWitness(s.workers, IS_BLOCKED);
    assert !IS_BLOCKED(s.workers[w]);
    CountWitness(s.workers, IS_RETIRING);
    var st := if s.workers[w].Running? then Finish(w) else if s.workers[w].Retiring? then Retire(w) else Lock(w);
    assert s.workers[w].Retiring? ==> IS_RETIRING(s.workers[w]);
    assert WorkerStep(st) && Enabled(s, st);
  }

  // ---------------------------------------------------------------- the monitor's subtraction

  /** From any state the pool can be in, the monitor round is safe exactly when
      `waiters_ >= pendingStopSignal_`: otherwise the unsigned difference wraps and the round
      queues more Stop tasks than there are workers to survive them. */
  lemma MonitorSafeExactly(s: Pool, wakes: seq<nat>)
    requires Inv(s) && !s.shutdown && Enabled(s, Monitor(wakes))
    requires |s.workers| < UNSIGNED / 4 && |s.tasks| < UNSIGNED / 4 && s.maxIdle <= 256
    ensures Inv(Apply(s, Monitor(wakes))) <==> s.waiters >= s.pending
  {
    hide NotifyEach, StopTasks, Count, Stops, Users, RunningBag;
    if s.waiters >= s.pending {
      MonitorKeeps(s, wakes);
    } else {
      var k := MonitorStops(s.waiters, s.pending, s.maxIdle);
      StopsBounded(s.tasks);
      CountMono(s.workers, IS_RETIRING, ANY_WORKER);
      CountMono(s.workers, Live, ANY_WORKER);
      assert (s.waiters - s.pending) % UNSIGNED == UNSIGNED + s.waiters - s.pending;
      NotifyEachCounts(s.workers, wakes, k);
      TasksAppend(s.tasks, StopTasks(k));
      StopTasksCount(k);
    }
  }

  const ANY_WORKER := (w: Worker) => true

  lemma {:induction false} StopsBounded(ts: seq<Task>)
    ensures Stops(ts) <= |ts|
  {
    if ts != [] { StopsBounded(ts[1..]); }
  }

  lemma {:induction false} Extend(s: Pool, run: seq<Step>, st: Step)
    requires Possible(s, run) && Enabled(After(s, run), st)
    ensures Possible(s, run + [st]) && After(s, run + [st]) == Apply(After(s, run), st)
    ensures Guarded(s, run) && Guard(After(s, run), st) ==> Guarded(s, run + [st])
    decreases |run|
  {
    if run == [] {
      assert run + [st] == [st];
    } else {
      assert (run + [st])[1..] == run[1..] + [st];
      Extend(Apply(s, run[0]), run[1..], st);
    }
  }

  const TWO_RUNNING := Pool(0, false, [], [Running(1), Running(2)], 0, 1, [1, 2], [1, 2], multiset{})
  const TWO_ASLEEP := Pool(2, false, [], [Blocked, Blocked], 0, 1, [1, 2], [1, 2], multiset{1, 2})
  const OVERTAKEN := Pool(0, false, [], [Retiring, Running(3)], 1, 1, [1, 2, 3], [1, 2, 3], multiset{1, 2})

  lemma ReachTwoRunning() returns (run: seq<Step>)
    ensures Possible(Init(1), run) && Guarded(Init(1), run) && After(Init(1), run) == TWO_RUNNING
  {
    var i := Init(1);
    run := ReachTwoQueued();
    Extend(i, run, Lock(0));  run := run + [Lock(0)];
    assert After(i, run) == Pool(0, false, [User(2)], [Running(1), Ready], 0, 1, [1, 2], [1], multiset{});
    Extend(i, run, Lock(1));  run := run + [Lock(1)];
  }

  lemma ReachTwoQueued() returns (run: seq<Step>)
    ensures Possible(Init(1), run) && Guarded(Init(1), run)
    ensures After(Init(1), run) == Pool(0, false, [User(1), User(2)], [Ready, Ready], 0, 1, [1, 2], [], multiset{})
  {
    var i := Init(1);
    run := ReachOneQueued();
    CountWitness([Ready] + [Ready], IS_BLOCKED);
    Extend(i, run, Submit(2, 0));  run := run + [Submit(2, 0)];
  }

  lemma ReachOneQueued() returns (run: seq<Step>)
    ensures Possible(Init(1), run) && Guarded(Init(1), run)
    ensures After(Init(1), run) == Pool(0, false, [User(1)], [Ready], 0, 1, [1], [], multiset{})
  {
    run := [];
    CountWitness([] + [Ready], IS_BLOCKED);
    Extend(Init(1), run, Submit(1, 0));  run := run + [Submit(1, 0)];
  }

  lemma ReachTwoAsleep() returns (run: seq<Step>)
    ensures Possible(Init(1), run) && Guarded(Init(1), run) && After(Init(1), run) == TWO_ASLEEP
  {
    var i := Init(1);
    run := ReachTwoRunning();
    Extend(i, run, Finish(0));  run := run + [Finish(0)];
    Extend(i, run, Finish(1));  run := run + [Finish(1)];
    assert After(i, run) == Pool(0, false, [], [Ready, Ready], 0, 1, [1, 2], [1, 2], multiset{1, 2});
    Extend(i, run, Lock(0));  run := run + [Lock(0)];
    Extend(i, run, Lock(1));  run := run + [Lock(1)];
  }

  lemma ReachOneStopped() returns (run: seq<Step>)
    ensures Possible(Init(1), run) && Guarded(Init(1), run)
    ensures After(Init(1), run) == Pool(1, false, [], [Retiring, Blocked], 1, 1, [1, 2], [1, 2], multiset{1, 2})
  {
    var i := Init(1);
    run := ReachTwoAsleep();
    assert TWO_ASLEEP.workers[0 := Notified] == [Notified, Blocked];
    assert StopTasks(1) == [Stop];
    Extend(i, run, Monitor([0]));  run := run + [Monitor([0])];
    assert After(i, run) == Pool(2, false, [Stop], [Notified, Blocked], 1, 1, [1, 2], [1, 2], multiset{1, 2});
    Extend(i, run, Lock(0));  run := run + [Lock(0)];
  }

  /** The guard can really fail: a stopped worker that has not yet decremented
      `pendingStopSignal_` while the last waiter takes a new task leaves 0 waiters and 1 signal. */
  lemma GuardCanFail() returns (run: seq<Step>)
    ensures Possible(Init(1), run) && Guarded(Init(1), run) && After(Init(1), run) == OVERTAKEN
    ensures !Guard(OVERTAKEN, Monitor([])) && Enabled(OVERTAKEN, Monitor([]))
  {
    var i := Init(1);
    run := ReachOneStopped();
    Extend(i, run, Submit(3, 1));  run := run + [Submit(3, 1)];
    assert After(i, run) == Pool(1, false, [User(3)], [Retiring, Notified], 1, 1, [1, 2, 3], [1, 2], multiset{1, 2});
    Extend(i, run, Lock(1));  run := run + [Lock(1)];
    assert OVERTAKEN.workers[1..] == [Running(3)];
  }

  /** The wrapped round, and a task submitted behind its Stop tasks. */
  lemma WrapAndSubmit() returns (run: seq<Step>)
    ensures Possible(OVERTAKEN, run)
    ensures After(OVERTAKEN, run) == Pool(0, false, StopTasks(UNSIGNED - 2) + [User(4)], [Retiring, Running(3), Ready],
                                          UNSIGNED - 1, OVERTAKEN.maxIdle, OVERTAKEN.accepted + [4], OVERTAKEN.started, OVERTAKEN.finished)
  {
    var i, k := OVERTAKEN, UNSIGNED - 2;
    run := [];
    assert i.workers[1..] == [Running(3)];
    Extend(i, run, Monitor([]));  run := run + [Monitor([])];
    var s1 := i.(tasks := StopTasks(k), pending := k + 1);
    assert After(i, run) == s1;
    assert s1.workers + [Ready] == [Retiring, Running(3), Ready];
    CountWitness([Retiring, Running(3), Ready], IS_BLOCKED);
    Extend(i, run, Submit(4, 2));  run := run + [Submit(4, 2)];
  }

  /** ... and then an accepted task can be stranded for good: after the wrapped round every
      worker retires while task 4 is still queued and nobody is left to wake. */
  lemma WrapStrandsTask() returns (run: seq<Step>)
    ensures Possible(OVERTAKEN, run)
    ensures var s := After(OVERTAKEN, run);
      && !s.shutdown && User(4) in s.tasks && 4 !in s.started
      && forall w :: 0 <= w < |s.workers| ==> s.workers[w].Retiring?
  {
    var i, k := OVERTAKEN, UNSIGNED - 2;
    run := WrapAndSubmit();
    StopsThenTask(After(i, run), k);
    var rest := [Lock(2), Finish(1), Lock(1)];
    Join(i, run, rest);
    run := run + rest;
  }

  lemma StopsThenTask(s: Pool, k: nat)
    requires k >= 2 && s.tasks == StopTasks(k) + [User(4)]
    requires s.workers == [Retiring, Running(3), Ready] && !s.shutdown
    ensures var rest := [Lock(2), Finish(1), Lock(1)];
      && Possible(s, rest)
      && After(s, rest).workers == [Retiring, Retiring, Retiring]
      && After(s, rest).tasks == s.tasks[2..] && After(s, rest).tasks[k - 2] == User(4)
      && After(s, rest).started == s.started && !After(s, rest).shutdown
  {
    var rest := [Lock(2), Finish(1), Lock(1)];
    var s1 := LockStep(s, 2);
    assert s1.workers == [Retiring, Running(3), Retiring] && s1.tasks == s.tasks[1..] && s1.tasks[0] == Stop;
    var s2 := Apply(s1, Finish(1));
    assert s2.workers == [Retiring, Ready, Retiring];
    var s3 := LockStep(s2, 1);
    assert s3.workers == [Retiring, Retiring, Retiring] && s3.tasks == s.tasks[2..];
    assert Possible(s3, []) && After(s3, []) == s3;
    assert rest[2..] == [Lock(1)] && [Lock(1)][1..] == [];
    assert Possible(s2, [Lock(1)]) && After(s2, [Lock(1)]) == s3;
    assert [Finish(1), Lock(1)][1..] == [Lock(1)];
    assert Possible(s1, [Finish(1), Lock(1)]) && After(s1, [Finish(1), Lock(1)]) == s3;
    assert rest[1..] == [Finish(1), Lock(1)];
  }

  lemma {:induction false} Join(s: Pool, run: seq<Step>, rest: seq<Step>)
    requires Possible(s, run) && Possible(After(s, run), rest)
    ensures Possible(s, run + rest) && After(s, run + rest) == After(After(s, run), rest)
    decreases |run|
  {
    if run == [] {
      assert run + rest == rest;
    } else {
      assert (run + rest)[1..] == run[1..] + rest;
      Join(Apply(s, run[0]), run[1..], rest);
    }
  }
}

/** The same protocol written as the source does it: one object whose methods update its
    fields in place. Every method performs exactly one `Apply` of the protocol. */
module ThreadPoolObject {
  import opened ThreadPoolProtocol

  class ThreadPool {
    var waiters: nat
    var shutdown: bool
    var tasks: seq<Task>
    var workers: seq<Worker>
    var pendingStopSignal: nat
    var maxIdleThread: nat
    ghost var accepted: seq<nat>
    ghost var started: seq<nat>
    ghost var finished: multiset<nat>

    ghost function State(): Pool
      reads this
    {
      Pool(waiters, shutdown, tasks, workers, pendingStopSignal, maxIdleThread, accepted, started, finished)
    }

    constructor (cores: nat)
      ensures State() == Init(if cores > 1 then cores else 1)
    {
      waiters, shutdown, tasks, workers := 0, false, [], [];
      pendingStopSignal, maxIdleThread := 0, if cores > 1 then cores else 1;
      accepted, started, finished := [], [], multiset{};
    }

    /** `cond_.notify_one()`, where the scheduler picks `wake`. */
    method Notify(wake: nat)
      modifies this`workers
      ensures workers == NotifyOne(old(workers), wake)
    {
      if wake < |workers| && workers[wake].Blocked? { workers := workers[wake := Notified]; }
    }

    method ExecuteTask(id: nat, wake: nat) returns (valid: bool)
      requires Enabled(State(), Submit(id, wake))
      modifies this
      ensures State() == Apply(old(State()), Submit(id, wake))
      ensures valid == !old(shutdown)
      ensures tasks == old(tasks) + (if valid then [User(id)] else [])
      ensures |workers| == |old(workers)| + (if valid && waiters == 0 then 1 else 0)
    {
      if shutdown { return false; }
      tasks := tasks + [User(id)];
      if waiters == 0 { workers := workers + [Ready]; }
      Notify(wake);
      accepted := accepted + [id];
      return true;
    }

    /** The critical section of _WorkerRoutine, entered either at the top of the loop or on
        return from the wait. */
    method WorkerRoutine(w: nat)
      requires Enabled(State(), Lock(w))
      modifies this
      ensures State() == LockStep(old(State()), w)
    {
      if workers[w].Ready? { waiters := waiters + 1; }
      if !(shutdown || tasks != []) {
        workers := workers[w := Blocked];
        return;
      }
      waiters := if waiters > 0 then waiters - 1 else UNSIGNED - 1;
      if shutdown && tasks == [] {
        workers := workers[w := Exited];
        return;
      }
      var task := tasks[0];
      tasks := tasks[1..];
      match task {
        case Stop => workers := workers[w := Retiring];
        case User(id) =>
          workers := workers[w := Running(id)];
          started := started + [id];
      }
    }

    /** One round of _MonitorRoutine: the unsigned loop pushes a Stop and notifies while
        `nw-- > maxIdleThread_`. */
    method MonitorRoutine(wakes: seq<nat>)
      requires Enabled(State(), Monitor(wakes))
      modifies this
      ensures State() == Apply(old(State()), Monitor(wakes))
    {
      if shutdown { return; }
      hide NotifyEach, WakesOk, StopTasks;
      var nw := (waiters - pendingStopSignal) % UNSIGNED;
      ghost var total := MonitorStops(waiters, pendingStopSignal, maxIdleThread);
      ghost var round := 0;
      var picks := wakes;
      StopsQueued(tasks, 0);
      while nw > maxIdleThread
        invariant 0 <= nw < UNSIGNED && 0 <= round
        invariant total == round + (if nw > maxIdleThread then nw - maxIdleThread else 0)
        invariant WakesOk(workers, picks, total - round)
        invariant NotifyEach(workers, picks) == NotifyEach(old(workers), wakes)
        invariant tasks == old(tasks) + StopTasks(round)
        invariant pendingStopSignal == old(pendingStopSignal) + round
        invariant unchanged(this`waiters, this`shutdown, this`maxIdleThread, this`accepted, this`started, this`finished)
        decreases nw
      {
        nw := nw - 1;
        StopsQueued(old(tasks), round);
        picks := StopOne(picks, total - round);
        round := round + 1;
      }
      NotifiedAll(workers, picks);
    }

    /** The body of that loop; `wakes` are the threads the remaining notifications wake. */
    method StopOne(wakes: seq<nat>, ghost left: nat) returns (rest: seq<nat>)
      requires left > 0 && WakesOk(workers, wakes, left)
      modifies this`workers, this`tasks, this`pendingStopSignal
      ensures WakesOk(workers, rest, left - 1) && NotifyEach(workers, rest) == NotifyEach(old(workers), wakes)
      ensures tasks == old(tasks) + [Stop] && pendingStopSignal == old(pendingStopSignal) + 1
    {
      hide NotifyOne, NotifyEach, WakesOk;
      NotifyPicks(workers, wakes, left);
      tasks := tasks + [Stop];
      if wakes == [] {
        Notify(0);
        rest := [];
      } else {
        Notify(wakes[0]);
        rest := wakes[1..];
      }
      pendingStopSignal := pendingStopSignal + 1;
    }

    /** The wait returns although nobody notified. */
    method SpuriousWakeup(w: nat)
      requires Enabled(State(), Spurious(w))
      modifies this`workers
      ensures State() == Apply(old(State()), Spurious(w))
    {
      workers := workers[w := Notified];
    }

    /** `task()` returns and the worker goes round its loop. */
    method FinishTask(w: nat)
      requires Enabled(State(), Finish(w))
      modifies this`workers, this`finished
      ensures State() == Apply(old(State()), Finish(w))
    {
      finished := finished + multiset{workers[w].id};
      workers := workers[w := Ready];
    }

    /** `working_` is false: the worker leaves its loop and gives back its stop signal. */
    method LeaveLoop(w: nat)
      requires Enabled(State(), Retire(w))
      modifies this`workers, this`pendingStopSignal
      ensures State() == Apply(old(State()), Retire(w))
    {
      pendingStopSignal := pendingStopSignal - 1;
      workers := workers[w := Exited];
    }

    method SetMaxIdleThread(m: nat)
      modifies this`maxIdleThread
      ensures State() == Apply(old(State()), SetMaxIdle(m))
      ensures maxIdleThread == if 1 <= m <= 256 then m else old(maxIdleThread)
    {
      if 0 < m && m <= 256 { maxIdleThread := m; }
    }

    /** The critical section of JoinAll; the joins that follow only wait. */
    method JoinAll()
      modifies this`shutdown, this`workers
      ensures State() == Apply(old(State()), BeginJoin)
      ensures shutdown && (!old(shutdown) ==> forall w :: 0 <= w < |workers| ==> !workers[w].Blocked?)
    {
      if shutdown { return; }
      shutdown := true;
      var i := 0;
      while i < |workers|
        invariant shutdown && 0 <= i <= |workers| == |old(workers)|
        invariant forall k :: 0 <= k < i ==> workers[k] == NotifyAll(old(workers))[k]
        invariant forall k :: i <= k < |workers| ==> workers[k] == old(workers[k])
      {
        if workers[i].Blocked? { workers := workers[i := Notified]; }
        i := i + 1;
      }
      assert workers == NotifyAll(old(workers));
    }
  }
}
