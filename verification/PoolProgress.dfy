/**
  What the thread pool is for: jobs are run in the order they are queued, and under every schedule every signalled job
  has been run as often as it was signalled when nothing is left to do.
 */
module PoolProgress {
  import opened ThreadPool

  // ---------------------------------------------------------------- first in, first out

  /** The job that a step puts into the queue. */
  ghost function PushedBy(st: State, a: Action): seq<int>
    requires Wf(st) && Enabled(st, a)
  {
    if a.Work? && st.workers[a.i].pc.HasPush? then [st.workers[a.i].job]
    else if a.Call? && st.callers[a.i].pc.Pushing? then [st.callers[a.i].job]
    else []
  }

  /** The job that a step puts into the hands of a worker that had none. */
  ghost function TakenBy(st: State, a: Action): seq<int>
    requires Wf(st) && Enabled(st, a)
  {
    if a.Work? && st.workers[a.i].job == -1 && Step(st, a).workers[a.i].job >= 0 then [Step(st, a).workers[a.i].job]
    else []
  }

  ghost function AllPushed(st: State, actions: seq<Action>): seq<int>
    requires Wf(st) && EnabledRun(st, actions)
    decreases |actions|
  {
    if actions == [] then []
    else StepWf(st, actions[0]); PushedBy(st, actions[0]) + AllPushed(Step(st, actions[0]), actions[1..])
  }

  ghost function AllTaken(st: State, actions: seq<Action>): seq<int>
    requires Wf(st) && EnabledRun(st, actions)
    decreases |actions|
  {
    if actions == [] then []
    else StepWf(st, actions[0]); TakenBy(st, actions[0]) + AllTaken(Step(st, actions[0]), actions[1..])
  }

  lemma StepInOrder(st: State, a: Action)
    requires Wf(st) && Enabled(st, a)
    ensures st.queue + PushedBy(st, a) == TakenBy(st, a) + Step(st, a).queue
  {
    if a.Work? {
      assert WfWorker(st.workers[a.i], |st.count|);
    }
  }

  lemma Chained(q: seq<int>, p: seq<int>, t: seq<int>, q': seq<int>, ps: seq<int>, ts: seq<int>, last: seq<int>)
    requires q + p == t + q' && q' + ps == ts + last
    ensures q + (p + ps) == (t + ts) + last
  {
    assert q + (p + ps) == (q + p) + ps == (t + q') + ps == t + (q' + ps) == t + (ts + last) == (t + ts) + last;
  }

  /** In every interleaving jobs leave the queue in the order they came into it, and none is lost or repeated there. */
  lemma {:induction false} FirstInFirstOut(st: State, actions: seq<Action>)
    requires Wf(st) && EnabledRun(st, actions)
    ensures st.queue + AllPushed(st, actions) == AllTaken(st, actions) + Run(st, actions).queue
    decreases |actions|
  {
    if actions != [] {
      var a := actions[0];
      StepWf(st, a);
      StepInOrder(st, a);
      var st', rest := Step(st, a), actions[1..];
      FirstInFirstOut(st', rest);
      Chained(st.queue, PushedBy(st, a), TakenBy(st, a), st'.queue, AllPushed(st', rest), AllTaken(st', rest),
              Run(st', rest).queue);
    }
  }

  // ---------------------------------------------------------------- nothing left to do

  /** No worker, no caller and nobody who stops the pool can take a step. */
  ghost predicate AtRest(st: State)
    requires Wf(st)
  {
    && (forall i :: 0 <= i < |st.workers| ==> !Enabled(st, Work(i)))
    && (forall i, wake :: 0 <= i < |st.callers| ==> !Enabled(st, Call(i, wake)))
    && (forall wake :: !Enabled(st, Farewell(wake)))
  }

  /** Every job has been run as often as it was signalled, and none is queued. */
  ghost predicate Done(st: State)
    requires Wf(st)
  {
    st.queue == [] && forall j :: 0 <= j < |st.count| ==> st.count[j] == 0 && st.finished[j] == st.posted[j]
  }

  /** A sleeper to wake, or no matter whom. */
  lemma Sleeper(st: State) returns (wake: nat)
    requires Wf(st)
    ensures SomeAsleep(st.workers) ==> wake < |st.workers| && st.workers[wake].pc.Asleep?
  {
    wake := 0;
    if SomeAsleep(st.workers) {
      wake :| 0 <= wake < |st.workers| && st.workers[wake].pc.Asleep?;
    }
  }

  /** Whoever holds the pool can go on. */
  lemma PoolMoves(st: State)
    requires Wf(st) && Exclusive(st) && !st.pool.Nobody?
    ensures !AtRest(st)
  {
    var i := st.pool.i;
    if st.pool.ByWorker? {
      assert PoolHeld(st.workers[i].pc);
      assert Enabled(st, Work(i));
    } else {
      assert PoolHeldC(st.callers[i].pc);
      var wake := Sleeper(st);
      assert Enabled(st, Call(i, wake));
    }
  }

  /** With the pool free, whoever holds a job can go on. */
  lemma JobMoves(st: State, j: nat)
    requires Wf(st) && Exclusive(st) && st.pool.Nobody? && j < |st.locks| && !st.locks[j].Nobody?
    ensures !AtRest(st)
  {
    assert JobExclusive(st, j);
    var i := st.locks[j].i;
    if st.locks[j].ByWorker? {
      assert JobHeld(st.workers[i].pc);
      assert Enabled(st, Work(i));
    } else {
      assert JobHeldC(st.callers[i].pc);
      assert Enabled(st, Call(i, 0));
    }
  }

  ghost predicate AllFree(st: State) { st.pool.Nobody? && forall j :: 0 <= j < |st.locks| ==> st.locks[j].Nobody? }

  lemma RestIsFree(st: State)
    requires Wf(st) && Exclusive(st) && AtRest(st)
    ensures AllFree(st)
  {
    if !st.pool.Nobody? {
      PoolMoves(st);
    } else {
      forall j | 0 <= j < |st.locks| ensures st.locks[j].Nobody? {
        if !st.locks[j].Nobody? {
          JobMoves(st, j);
        }
      }
    }
  }

  /** With everything free, only those who sleep or have ended cannot go on. */
  lemma WorkerMoves(st: State, i: nat)
    requires Wf(st) && AllFree(st) && i < |st.workers| && !st.workers[i].pc.Asleep? && !st.workers[i].pc.Exited?
    ensures Enabled(st, Work(i))
  {
    assert WfWorker(st.workers[i], |st.count|);
  }

  lemma CallerMoves(st: State, i: nat) returns (wake: nat)
    requires Wf(st) && AllFree(st) && i < |st.callers| && !st.callers[i].pc.Returned?
    ensures Enabled(st, Call(i, wake))
  {
    wake := Sleeper(st);
  }

  lemma AllSleep(st: State)
    requires Wf(st) && Exclusive(st) && AtRest(st)
    ensures forall i :: 0 <= i < |st.workers| ==> st.workers[i].pc.Asleep? || st.workers[i].pc.Exited?
    ensures forall i :: 0 <= i < |st.callers| ==> st.callers[i].pc.Returned?
    ensures st.farewells == 0
  {
    RestIsFree(st);
    forall i | 0 <= i < |st.workers| ensures st.workers[i].pc.Asleep? || st.workers[i].pc.Exited? {
      if !st.workers[i].pc.Asleep? && !st.workers[i].pc.Exited? {
        WorkerMoves(st, i);
      }
    }
    if 0 < st.farewells {
      var wake := Sleeper(st);
      assert Enabled(st, Farewell(wake));
    }
    forall i | 0 <= i < |st.callers| ensures st.callers[i].pc.Returned? {
      if !st.callers[i].pc.Returned? {
        var wake := CallerMoves(st, i);
      }
    }
  }

  lemma {:induction false} NoneClosing(ws: seq<Worker>, j: nat)
    requires forall i :: 0 <= i < |ws| ==> ws[i].pc.Asleep?
    ensures ClosingSum(ws, j) == 0
  {
    if ws != [] {
      NoneClosing(ws[1..], j);
    }
  }

  /** The pool never stops short: when no thread can take a step, all signalled work has been done. */
  lemma RestIsDone(st: State)
    requires Inv(st) && Exclusive(st) && AtRest(st) && st.running && st.workers != []
    ensures Done(st)
  {
    AllSleep(st);
    assert NoneExited(st.workers);
    forall j | 0 <= j < |st.count| ensures st.count[j] == 0 && st.finished[j] == st.posted[j] {
      assert Flight(st, j);
      forall i | 0 <= i < |st.workers| ensures InHand(st.workers[i], j) == 0 {
        assert WfWorker(st.workers[i], |st.count|);
      }
      NoneClosing(st.workers, j);
      if st.count[j] > 0 {
        FlightFinds(st, j);
      }
    }
  }

  // ---------------------------------------------------------------- every schedule comes to rest

  // What is left to do: a signalled run of a job, a place in the queue, and what each thread has before it.
  const RUN := 22
  const PLACE := 12

  /** The steps before a worker; on the way to the queue they are more when the pool stops. */
  function WorkerLeft(w: Worker, running: bool): nat
  {
    match w.pc
    case Asleep => 0
    case Exited => 0
    case HasPool => if running then 1 else 11
    case Woken => if running then 2 else 12
    case WantPool => if running then 2 else 12
    case Check => 3
    case Decide => if w.job >= 0 then 11 else 4
    case Popped => if w.job >= 0 then 12 else 5
    case PopDone => if w.job >= 0 then 11 else 4
    case HasPop => 5
    case WantPop => 6
    case Release => 7
    case Pushed => 8
    case HasPush => 9 + PLACE
    case WantPush => 10 + PLACE
    case HasJob => 8
    case WantJob => 9
    case Calling => 10
  }

  function CallerLeft(c: Caller): nat
  {
    match c.pc
    case Returned => 0
    case AfterSignal => 1
    case Signalling => 15
    case ToSignal => 16
    case Leave => 17
    case AfterPush => 18
    case Pushing => 19 + PLACE
    case ToPush => 20 + PLACE
    case Counting => 21 + PLACE + RUN
    case Enter => 22 + PLACE + RUN
  }

  ghost function WorkersLeft(ws: seq<Worker>, running: bool): nat
  {
    if ws == [] then 0 else WorkerLeft(ws[0], running) + WorkersLeft(ws[1..], running)
  }

  ghost function CallersLeft(cs: seq<Caller>): nat { if cs == [] then 0 else CallerLeft(cs[0]) + CallersLeft(cs[1..]) }

  ghost function RunsLeft(count: seq<int>): int { if count == [] then 0 else count[0] + RunsLeft(count[1..]) }

  ghost function Left(st: State): int
  {
    RUN * RunsLeft(st.count) + PLACE * |st.queue| + WorkersLeft(st.workers, st.running) + CallersLeft(st.callers) +
    13 * st.farewells
  }

  lemma {:induction false} WorkersUpdate(ws: seq<Worker>, running: bool, i: nat, w: Worker)
    requires i < |ws|
    ensures WorkersLeft(ws[i := w], running) ==
            WorkersLeft(ws, running) - WorkerLeft(ws[i], running) + WorkerLeft(w, running)
  {
    if i > 0 {
      WorkersUpdate(ws[1..], running, i - 1, w);
      assert ws[i := w][1..] == ws[1..][i - 1 := w];
    } else {
      assert ws[i := w][1..] == ws[1..];
    }
  }

  lemma {:induction false} CallersUpdate(cs: seq<Caller>, i: nat, c: Caller)
    requires i < |cs|
    ensures CallersLeft(cs[i := c]) == CallersLeft(cs) - CallerLeft(cs[i]) + CallerLeft(c)
  {
    if i > 0 {
      CallersUpdate(cs[1..], i - 1, c);
      assert cs[i := c][1..] == cs[1..][i - 1 := c];
    } else {
      assert cs[i := c][1..] == cs[1..];
    }
  }

  lemma {:induction false} RunsUpdate(count: seq<int>, j: nat, n: int)
    requires j < |count|
    ensures RunsLeft(count[j := n]) == RunsLeft(count) - count[j] + n
  {
    if j > 0 {
      RunsUpdate(count[1..], j - 1, n);
      assert count[j := n][1..] == count[1..][j - 1 := n];
    } else {
      assert count[j := n][1..] == count[1..];
    }
  }

  lemma {:induction false} RunsNotNegative(count: seq<int>)
    requires forall j :: 0 <= j < |count| ==> 0 <= count[j]
    ensures 0 <= RunsLeft(count)
  {
    if count != [] {
      RunsNotNegative(count[1..]);
    }
  }

  /** What one worker step costs the worker, the queue and the count of its job. */
  lemma WorkerPays(w: Worker, running: bool, q: seq<nat>, count: int, jobs: nat)
    requires WfWorker(w, jobs) && !w.pc.Asleep? && !w.pc.Exited?
    ensures
      var w', q' := Worker(NextPc(w, running, q == [], count), NextJob(w, running, q)), NextQueue(w, running, q);
      WorkerLeft(w', running) + PLACE * |q'| <
      WorkerLeft(w, running) + PLACE * |q| + (if w.pc.HasJob? then RUN else 0)
  {
  }

  lemma WorkerLess(st: State, i: nat)
    requires Wf(st) && Enabled(st, Work(i))
    ensures Left(WorkerStep(st, i)) < Left(st)
  {
    var w, st' := st.workers[i], WorkerStep(st, i);
    var count := if w.job >= 0 then st.count[w.job] else 0;
    assert WfWorker(w, |st.count|);
    WorkerPays(w, st.running, st.queue, count, |st.count|);
    WorkersUpdate(st.workers, st.running, i, st'.workers[i]);
    if w.pc.HasJob? {
      RunsUpdate(st.count, w.job, count - 1);
    }
  }

  /** What one caller step costs the caller pays for the place, the run or the sleeper it adds. */
  lemma CallerPays(c: Caller, count: int)
    requires !c.pc.Returned?
    ensures CallerLeft(Caller(NextCallerPc(c, count), c.job, c.pushed || c.pc.Pushing?)) +
            (if c.pc.Pushing? then PLACE else if c.pc.Counting? then RUN else if c.pc.Signalling? then 12 else 0) <
            CallerLeft(c)
  {
  }

  lemma SignalCosts(ws: seq<Worker>, running: bool, wake: nat)
    ensures WorkersLeft(Signal(ws, wake), running) <= WorkersLeft(ws, running) + 12
  {
    if wake < |ws| && ws[wake].pc.Asleep? {
      WorkersUpdate(ws, running, wake, Worker(Woken, -1));
    }
  }

  lemma CallerLess(st: State, i: nat, wake: nat)
    requires Wf(st) && Enabled(st, Call(i, wake))
    ensures Left(CallerStep(st, i, wake)) < Left(st)
  {
    var c, st' := st.callers[i], CallerStep(st, i, wake);
    CallerPays(c, st.count[c.job]);
    CallersUpdate(st.callers, i, st'.callers[i]);
    SignalCosts(st.workers, st.running, wake);
    RunsUpdate(st.count, c.job, st.count[c.job] + 1);
    assert st'.workers == if c.pc.Signalling? then Signal(st.workers, wake) else st.workers;
    assert st'.count == if c.pc.Counting? then st.count[c.job := st.count[c.job] + 1] else st.count;
    assert |st'.queue| == |st.queue| + if c.pc.Pushing? then 1 else 0;
  }

  // ---------------------------------------------------------------- stopping

  ghost function Sleepers(ws: seq<Worker>): nat
  {
    if ws == [] then 0 else (if ws[0].pc.Asleep? then 1 else 0) + Sleepers(ws[1..])
  }

  lemma {:induction false} SleepersUpdate(ws: seq<Worker>, i: nat, w: Worker)
    requires i < |ws|
    ensures Sleepers(ws[i := w]) == Sleepers(ws) - (if ws[i].pc.Asleep? then 1 else 0) + (if w.pc.Asleep? then 1 else 0)
  {
    if i > 0 {
      SleepersUpdate(ws[1..], i - 1, w);
      assert ws[i := w][1..] == ws[1..][i - 1 := w];
    } else {
      assert ws[i := w][1..] == ws[1..];
    }
  }

  lemma {:induction false} SleepersBounds(ws: seq<Worker>)
    ensures Sleepers(ws) <= |ws|
    ensures Sleepers(ws) == 0 <==> !SomeAsleep(ws)
  {
    if ws != [] {
      SleepersBounds(ws[1..]);
      if ws[0].pc.Asleep? {
        assert SomeAsleep(ws);
      }
      if SomeAsleep(ws[1..]) {
        var i :| 0 <= i < |ws[1..]| && ws[1..][i].pc.Asleep?;
        assert ws[i + 1].pc.Asleep?;
      }
      if i :| 0 <= i < |ws| && ws[i].pc.Asleep? {
        assert i > 0 ==> ws[1..][i - 1].pc.Asleep?;
      }
    }
  }

  /** Once the pool is stopped there is a signal to come for every sleeper. */
  ghost predicate Dismissed(st: State) { !st.running ==> Sleepers(st.workers) <= st.farewells }

  lemma SignalWakes(ws: seq<Worker>, wake: nat)
    requires SomeAsleep(ws) ==> wake < |ws| && ws[wake].pc.Asleep?
    ensures Sleepers(Signal(ws, wake)) == if SomeAsleep(ws) then Sleepers(ws) - 1 else 0
  {
    SleepersBounds(ws);
    if SomeAsleep(ws) {
      SleepersUpdate(ws, wake, Worker(Woken, -1));
    }
  }

  lemma StepDismissed(st: State, a: Action)
    requires Wf(st) && Enabled(st, a) && Dismissed(st)
    ensures Dismissed(Step(st, a))
  {
    match a
    case Work(i) => SleepersUpdate(st.workers, i, Step(st, a).workers[i]);
    case Call(i, wake) =>
      if st.callers[i].pc.Signalling? {
        SignalWakes(st.workers, wake);
      }
    case Begin(_) =>
    case Spurious(i) => SleepersUpdate(st.workers, i, Worker(Woken, -1));
    case Stop => SleepersBounds(st.workers);
    case Farewell(wake) => SignalWakes(st.workers, wake);
  }

  /** A stopped pool leaves no worker behind: when no thread can take a step, all of them have exited. */
  lemma RestIsExited(st: State)
    requires Wf(st) && Exclusive(st) && AtRest(st) && !st.running && Dismissed(st)
    ensures forall i :: 0 <= i < |st.workers| ==> st.workers[i].pc.Exited?
  {
    AllSleep(st);
    SleepersBounds(st.workers);
  }

  // ---------------------------------------------------------------- every schedule

  /** Only steps of the threads: no call begins, nobody wakes by itself, the pool is not stopped any more. */
  predicate Plain(actions: seq<Action>)
  {
    forall k :: 0 <= k < |actions| ==> actions[k].Work? || actions[k].Call? || actions[k].Farewell?
  }

  lemma LeftNotNegative(st: State)
    requires Inv(st)
    ensures 0 <= Left(st)
  {
    forall j | 0 <= j < |st.count| ensures 0 <= st.count[j] {
      assert Flight(st, j);
    }
    RunsNotNegative(st.count);
  }

  lemma PlainLess(st: State, a: Action)
    requires Wf(st) && Enabled(st, a) && (a.Work? || a.Call? || a.Farewell?)
    ensures Left(Step(st, a)) < Left(st)
  {
    match a
    case Work(i) => WorkerLess(st, i);
    case Call(i, wake) => CallerLess(st, i, wake);
    case Farewell(wake) => SignalCosts(st.workers, st.running, wake);
  }

  lemma PlainStep(st: State, a: Action)
    requires Inv(st) && Exclusive(st) && Dismissed(st) && Enabled(st, a) && (a.Work? || a.Call? || a.Farewell?)
    ensures
      var st' := Step(st, a);
      && Inv(st') && Exclusive(st') && Dismissed(st') && st'.running == st.running && |st'.workers| == |st.workers|
      && Left(st') < Left(st)
  {
    PlainLess(st, a);
    StepSafe(st, a);
    StepExclusive(st, a);
    StepDismissed(st, a);
  }

  /** While the pool runs all signalled work is done; when it is stopped all workers have gone. */
  ghost predicate Finished(st: State)
    requires Wf(st)
  {
    if st.running then st.workers != [] ==> Done(st) else forall i :: 0 <= i < |st.workers| ==> st.workers[i].pc.Exited?
  }

  /**
    Under every schedule the threads come to rest after a bounded number of steps. When they rest, every signalled job
    has been run as often as it was signalled, or the pool was stopped and every worker has exited.
   */
  lemma {:induction false} EveryScheduleFinishes(st: State, actions: seq<Action>)
    requires Inv(st) && Exclusive(st) && Dismissed(st) && EnabledRun(st, actions) && Plain(actions)
    ensures
      var st' := Run(st, actions);
      |actions| <= Left(st) - Left(st') <= Left(st) && (AtRest(st') ==> Finished(st'))
    decreases |actions|
  {
    if actions == [] {
      LeftNotNegative(st);
      if AtRest(st) {
        if !st.running {
          RestIsExited(st);
        } else if st.workers != [] {
          RestIsDone(st);
        }
      }
    } else {
      PlainStep(st, actions[0]);
      assert forall k :: 0 <= k < |actions[1..]| ==> actions[1..][k] == actions[k + 1];
      EveryScheduleFinishes(Step(st, actions[0]), actions[1..]);
    }
  }

  /** In every interleaving from the start, stopping the pool included, all of that is kept. */
  lemma {:induction false} RunDismissed(st: State, actions: seq<Action>)
    requires Inv(st) && Exclusive(st) && Dismissed(st) && EnabledRun(st, actions)
    ensures var st' := Run(st, actions); Inv(st') && Exclusive(st') && Dismissed(st')
    decreases |actions|
  {
    if actions != [] {
      StepSafe(st, actions[0]);
      StepExclusive(st, actions[0]);
      StepDismissed(st, actions[0]);
      RunDismissed(Step(st, actions[0]), actions[1..]);
    }
  }
}
