/**
  The thread pool: jobs that are signalled, queued once, and run by workers, under every interleaving of
  the workers and of the threads that signal jobs.
 */
module ThreadPool {

  /** Where a worker is in its loop. */
  datatype WorkerPc =
    | Check      // about to test `running`
    | WantPool   // about to lock the pool
    | HasPool    // pool locked, about to test `running` and pop
    | Asleep     // waiting on the condition variable
    | Woken      // woken, about to lock the pool again
    | Popped     // pool locked, about to unlock it
    | Decide     // about to test `running` again
    | Calling    // in the callback
    | WantJob    // callback done, about to lock the job
    | HasJob     // job locked, about to count down
    | WantPush   // signalled again: about to lock the pool as well
    | HasPush    // both locked, about to push
    | Pushed     // both locked, about to unlock the pool
    | Release    // about to unlock the job
    | WantPop    // about to lock the pool for the next job
    | HasPop     // pool locked, about to pop
    | PopDone    // pool locked, about to unlock it
    | Exited

  /** Where a thread is that signals a job. */
  datatype CallerPc =
    | Enter        // about to lock the job
    | Counting     // job locked, about to count up
    | ToPush       // first signal: about to lock the pool as well
    | Pushing      // both locked, about to push
    | AfterPush    // both locked, about to unlock the pool
    | Leave        // about to unlock the job
    | ToSignal     // about to lock the pool
    | Signalling   // pool locked, about to signal
    | AfterSignal  // pool locked, about to unlock it
    | Returned

  /** A worker and the job in its hands, -1 for none. */
  datatype Worker = Worker(pc: WorkerPc, job: int)

  /** `pushed` records that this call put its job into the queue. */
  datatype Caller = Caller(pc: CallerPc, job: nat, pushed: bool)

  datatype Owner = Nobody | ByWorker(i: nat) | ByCaller(i: nat)

  /**
    `posted` counts the signals of each job, `finished` its completed callbacks; `farewells` is how often the thread
    that stops the pool has still to signal.
   */
  datatype State = State(
    running: bool, queue: seq<nat>, pool: Owner, locks: seq<Owner>, count: seq<int>,
    workers: seq<Worker>, callers: seq<Caller>, posted: seq<nat>, finished: seq<nat>, farewells: nat)

  /**
    What may happen next: a worker or a caller takes a step, a call begins, a sleeper wakes by itself, the pool stops,
    whoever stopped it signals once more.
   */
  datatype Action =
    | Work(i: nat)
    | Call(i: nat, wake: nat)
    | Begin(job: nat)
    | Spurious(i: nat)
    | Stop
    | Farewell(wake: nat)

  /** The places where a worker must have a job. */
  predicate Busy(pc: WorkerPc)
  {
    pc.Calling? || pc.WantJob? || pc.HasJob? || pc.WantPush? || pc.HasPush? || pc.Pushed? || pc.Release?
  }

  /** The places where it can have none. */
  predicate Idle(pc: WorkerPc)
  {
    pc.Check? || pc.WantPool? || pc.HasPool? || pc.Asleep? || pc.Woken? || pc.WantPop? || pc.HasPop? || pc.Exited?
  }

  predicate WfWorker(w: Worker, jobs: nat)
  {
    -1 <= w.job < jobs && (Busy(w.pc) ==> 0 <= w.job) && (Idle(w.pc) ==> w.job == -1)
  }

  predicate Wf(st: State)
  {
    && |st.locks| == |st.count| == |st.posted| == |st.finished|
    && (forall k :: 0 <= k < |st.queue| ==> st.queue[k] < |st.count|)
    && (forall i :: 0 <= i < |st.workers| ==> WfWorker(st.workers[i], |st.count|))
    && (forall i :: 0 <= i < |st.callers| ==> st.callers[i].job < |st.count|)
  }

  ghost predicate SomeAsleep(ws: seq<Worker>)
  {
    exists i :: 0 <= i < |ws| && ws[i].pc.Asleep?
  }

  // ---------------------------------------------------------------- workers

  /** The next place of a worker. */
  function NextPc(w: Worker, running: bool, empty: bool, count: int): WorkerPc
  {
    match w.pc
    case Check => if running then WantPool else Exited
    case WantPool => HasPool
    case HasPool => if running && empty then Asleep else Popped
    case Asleep => Asleep
    case Woken => HasPool
    case Popped => Decide
    case Decide => if running && w.job >= 0 then Calling else Check
    case Calling => WantJob
    case WantJob => HasJob
    case HasJob => if count - 1 > 0 then WantPush else Release
    case WantPush => HasPush
    case HasPush => Pushed
    case Pushed => Release
    case Release => WantPop
    case WantPop => HasPop
    case HasPop => PopDone
    case PopDone => if w.job >= 0 then Calling else Check
    case Exited => Exited
  }

  /** A worker takes the head of the queue when it holds the pool for that. */
  predicate Takes(w: Worker, running: bool, queue: seq<nat>)
  {
    queue != [] && ((w.pc.HasPool? && running) || w.pc.HasPop?)
  }

  function NextJob(w: Worker, running: bool, queue: seq<nat>): int
  {
    if Takes(w, running, queue) then queue[0]
    else if w.pc.HasPool? || w.pc.HasPop? || w.pc.Release? || (w.pc.Decide? && !running) then -1
    else w.job
  }

  function NextQueue(w: Worker, running: bool, queue: seq<nat>): seq<nat>
  {
    if Takes(w, running, queue) then queue[1..]
    else if w.pc.HasPush? && w.job >= 0 then queue + [w.job]
    else queue
  }

  function NextPool(w: Worker, i: nat, running: bool, empty: bool, pool: Owner): Owner
  {
    if w.pc.WantPool? || w.pc.Woken? || w.pc.WantPush? || w.pc.WantPop? then ByWorker(i)
    else if w.pc.Popped? || w.pc.Pushed? || w.pc.PopDone? || (w.pc.HasPool? && running && empty) then Nobody
    else pool
  }

  function WorkerStep(st: State, i: nat): State
    requires Wf(st) && i < |st.workers|
  {
    var w := st.workers[i];
    var count := if w.job >= 0 then st.count[w.job] else 0;
    var w' := Worker(NextPc(w, st.running, st.queue == [], count), NextJob(w, st.running, st.queue));
    st.(workers := st.workers[i := w'],
        queue := NextQueue(w, st.running, st.queue),
        pool := NextPool(w, i, st.running, st.queue == [], st.pool),
        locks := if w.pc.WantJob? then st.locks[w.job := ByWorker(i)]
                 else if w.pc.Release? then st.locks[w.job := Nobody] else st.locks,
        count := if w.pc.HasJob? then st.count[w.job := count - 1] else st.count,
        finished := if w.pc.Calling? then st.finished[w.job := st.finished[w.job] + 1] else st.finished)
  }

  // ---------------------------------------------------------------- callers

  function NextCallerPc(c: Caller, count: int): CallerPc
  {
    match c.pc
    case Enter => Counting
    case Counting => if count == 0 then ToPush else Leave
    case ToPush => Pushing
    case Pushing => AfterPush
    case AfterPush => Leave
    case Leave => ToSignal
    case ToSignal => Signalling
    case Signalling => AfterSignal
    case AfterSignal => Returned
    case Returned => Returned
  }

  /** A signal moves one sleeper, if there is any, on to lock the pool again. */
  function Signal(ws: seq<Worker>, wake: nat): (ws': seq<Worker>)
    ensures |ws'| == |ws|
  {
    if wake < |ws| && ws[wake].pc.Asleep? then ws[wake := Worker(Woken, -1)] else ws
  }

  function CallerStep(st: State, i: nat, wake: nat): State
    requires Wf(st) && i < |st.callers|
  {
    var c := st.callers[i];
    var j := c.job;
    st.(callers := st.callers[i := Caller(NextCallerPc(c, st.count[j]), j, c.pushed || c.pc.Pushing?)],
        workers := if c.pc.Signalling? then Signal(st.workers, wake) else st.workers,
        queue := if c.pc.Pushing? then st.queue + [j] else st.queue,
        pool := if c.pc.ToPush? || c.pc.ToSignal? then ByCaller(i)
                else if c.pc.AfterPush? || c.pc.AfterSignal? then Nobody else st.pool,
        locks := if c.pc.Enter? then st.locks[j := ByCaller(i)]
                 else if c.pc.Leave? then st.locks[j := Nobody] else st.locks,
        count := if c.pc.Counting? then st.count[j := st.count[j] + 1] else st.count,
        posted := if c.pc.Counting? then st.posted[j := st.posted[j] + 1] else st.posted)
  }

  // ---------------------------------------------------------------- interleavings

  /** A step that locks waits until the lock is free; a signal wakes a sleeper if there is one. */
  ghost predicate Enabled(st: State, a: Action)
    requires Wf(st)
  {
    match a
    case Work(i) =>
      && i < |st.workers|
      && var w := st.workers[i];
      && !w.pc.Asleep? && !w.pc.Exited?
      && (w.pc.WantPool? || w.pc.Woken? || w.pc.WantPush? || w.pc.WantPop? ==> st.pool.Nobody?)
      && (w.pc.WantJob? ==> st.locks[w.job].Nobody?)
    case Call(i, wake) =>
      && i < |st.callers|
      && var c := st.callers[i];
      && !c.pc.Returned?
      && (c.pc.Enter? ==> st.locks[c.job].Nobody?)
      && (c.pc.ToPush? || c.pc.ToSignal? ==> st.pool.Nobody?)
      && (c.pc.Signalling? && SomeAsleep(st.workers) ==> wake < |st.workers| && st.workers[wake].pc.Asleep?)
    case Begin(job) => job < |st.count|
    case Spurious(i) => i < |st.workers| && st.workers[i].pc.Asleep?
    case Stop => true
    case Farewell(wake) =>
      && 0 < st.farewells && st.pool.Nobody?
      && (SomeAsleep(st.workers) ==> wake < |st.workers| && st.workers[wake].pc.Asleep?)
  }

  ghost function Step(st: State, a: Action): State
    requires Wf(st) && Enabled(st, a)
  {
    match a
    case Work(i) => WorkerStep(st, i)
    case Call(i, wake) => CallerStep(st, i, wake)
    case Begin(job) => st.(callers := st.callers + [Caller(Enter, job, false)])
    case Spurious(i) => st.(workers := st.workers[i := Worker(Woken, -1)])
    case Stop => st.(running := false, farewells := |st.workers|)
    case Farewell(wake) => st.(workers := Signal(st.workers, wake), farewells := st.farewells - 1)
  }

  lemma WorkerWf(st: State, i: nat)
    requires Wf(st) && i < |st.workers|
    ensures Wf(WorkerStep(st, i))
  {
  }

  lemma StepWf(st: State, a: Action)
    requires Wf(st) && Enabled(st, a)
    ensures Wf(Step(st, a)) && |Step(st, a).count| == |st.count|
  {
    if a.Work? {
      WorkerWf(st, a.i);
    }
  }

  // ---------------------------------------------------------------- single flight and exact counting

  /** 1 if the worker has the job in hand, from taking it to counting it down or pushing it back. */
  function InHand(w: Worker, j: nat): nat
  {
    if w.job == j && !w.pc.Pushed? && !w.pc.Release? then 1 else 0
  }

  /** 1 if the caller is about to push the job. */
  function InPush(c: Caller, j: nat): nat
  {
    if (c.pc.ToPush? || c.pc.Pushing?) && c.job == j then 1 else 0
  }

  /** 1 if the worker has completed the callback and not counted it down yet. */
  function Closing(w: Worker, j: nat): nat
  {
    if (w.pc.WantJob? || w.pc.HasJob?) && w.job == j then 1 else 0
  }

  ghost function HandSum(ws: seq<Worker>, j: nat): nat
  {
    if ws == [] then 0 else InHand(ws[0], j) + HandSum(ws[1..], j)
  }

  ghost function PushSum(cs: seq<Caller>, j: nat): nat
  {
    if cs == [] then 0 else InPush(cs[0], j) + PushSum(cs[1..], j)
  }

  ghost function ClosingSum(ws: seq<Worker>, j: nat): nat
  {
    if ws == [] then 0 else Closing(ws[0], j) + ClosingSum(ws[1..], j)
  }

  lemma {:induction false} WorkerSums(ws: seq<Worker>, i: nat, w: Worker, j: nat)
    requires i < |ws|
    ensures HandSum(ws[i := w], j) == HandSum(ws, j) - InHand(ws[i], j) + InHand(w, j)
    ensures ClosingSum(ws[i := w], j) == ClosingSum(ws, j) - Closing(ws[i], j) + Closing(w, j)
    ensures InHand(ws[i], j) <= HandSum(ws, j) && Closing(ws[i], j) <= ClosingSum(ws, j)
  {
    if i > 0 {
      WorkerSums(ws[1..], i - 1, w, j);
      assert ws[i := w][1..] == ws[1..][i - 1 := w];
    } else {
      assert ws[i := w][1..] == ws[1..];
    }
  }

  lemma {:induction false} CallerSums(cs: seq<Caller>, i: nat, c: Caller, j: nat)
    requires i < |cs|
    ensures PushSum(cs[i := c], j) == PushSum(cs, j) - InPush(cs[i], j) + InPush(c, j)
    ensures InPush(cs[i], j) <= PushSum(cs, j)
  {
    if i > 0 {
      CallerSums(cs[1..], i - 1, c, j);
      assert cs[i := c][1..] == cs[1..][i - 1 := c];
    } else {
      assert cs[i := c][1..] == cs[1..];
    }
  }

  lemma {:induction false} PushSumAppend(cs: seq<Caller>, c: Caller, j: nat)
    ensures PushSum(cs + [c], j) == PushSum(cs, j) + InPush(c, j)
  {
    if cs == [] {
      assert [] + [c] == [c] && [c][1..] == [];
    } else {
      PushSumAppend(cs[1..], c, j);
      assert (cs + [c])[1..] == cs[1..] + [c];
    }
  }

  /** How often the job is queued, in a worker's hands, or about to be pushed. */
  ghost function Tokens(st: State, j: nat): nat
  {
    multiset(st.queue)[j] + HandSum(st.workers, j) + PushSum(st.callers, j)
  }

  /** While the pool runs the job is in flight exactly once if it has been signalled, and else not at all. */
  ghost predicate Flight(st: State, j: nat)
    requires Wf(st) && j < |st.count|
  {
    && 0 <= st.count[j]
    && Tokens(st, j) <= (if st.count[j] > 0 then 1 else 0)
    && (st.running ==> Tokens(st, j) == if st.count[j] > 0 then 1 else 0)
    && st.finished[j] + st.count[j] == st.posted[j] + ClosingSum(st.workers, j)
  }

  /** What a worker's step moves: between the queue and its hands, or out of its hands when it counts down to zero. */
  lemma Moves(w: Worker, running: bool, q: seq<nat>, count: int, jobs: nat, j: nat)
    requires WfWorker(w, jobs)
    ensures
      var w', q' := Worker(NextPc(w, running, q == [], count), NextJob(w, running, q)), NextQueue(w, running, q);
      if w.pc.HasJob? && w.job == j then InHand(w, j) == 1 && q' == q && InHand(w', j) == if count - 1 > 0 then 1 else 0
      else
        var before, after := multiset(q)[j] + InHand(w, j), multiset(q')[j] + InHand(w', j);
        after <= before && (running ==> after == before)
  {
    if Takes(w, running, q) {
      assert q == [q[0]] + q[1..];
    } else if w.pc.HasPush? {
      assert multiset(q + [w.job])[j] == multiset(q)[j] + InHand(w, j);
    } else {
      assert NextQueue(w, running, q) == q;
    }
  }

  lemma WorkerCounts(st: State, i: nat, j: nat)
    requires Wf(st) && Enabled(st, Work(i)) && j < |st.count|
    ensures
      var w, st' := st.workers[i], WorkerStep(st, i);
      var down := if w.pc.HasJob? && w.job == j then 1 else 0;
      && st'.count[j] == st.count[j] - down
      && st'.finished[j] - st.finished[j] == Closing(st'.workers[i], j) - Closing(w, j) + down
  {
  }

  lemma WorkerFlight(st: State, i: nat, j: nat)
    requires Wf(st) && Enabled(st, Work(i)) && j < |st.count| && Flight(st, j)
    ensures Wf(WorkerStep(st, i)) && Flight(WorkerStep(st, i), j)
  {
    WorkerWf(st, i);
    WorkerCounts(st, i, j);
    var w, st' := st.workers[i], WorkerStep(st, i);
    Moves(w, st.running, st.queue, if w.job >= 0 then st.count[w.job] else 0, |st.count|, j);
    WorkerSums(st.workers, i, st'.workers[i], j);
    assert st'.workers == st.workers[i := st'.workers[i]];
  }

  /** A signal moves no job. */
  lemma SignalSums(st: State, wake: nat, j: nat)
    requires Wf(st)
    ensures HandSum(Signal(st.workers, wake), j) == HandSum(st.workers, j)
    ensures ClosingSum(Signal(st.workers, wake), j) == ClosingSum(st.workers, j)
  {
    if wake < |st.workers| && st.workers[wake].pc.Asleep? {
      assert WfWorker(st.workers[wake], |st.count|);
      WorkerSums(st.workers, wake, Worker(Woken, -1), j);
    }
  }

  lemma CallerFlight(st: State, i: nat, wake: nat, j: nat)
    requires Wf(st) && Enabled(st, Call(i, wake)) && j < |st.count| && Flight(st, j)
    ensures Wf(CallerStep(st, i, wake)) && Flight(CallerStep(st, i, wake), j)
  {
    var c, st' := st.callers[i], CallerStep(st, i, wake);
    StepWf(st, Call(i, wake));
    CallerSums(st.callers, i, st'.callers[i], j);
    assert st'.callers == st.callers[i := st'.callers[i]];
    SignalSums(st, wake, j);
    assert multiset(st'.queue)[j] == multiset(st.queue)[j] + if c.pc.Pushing? && c.job == j then 1 else 0;
  }

  lemma StepFlight(st: State, a: Action, j: nat)
    requires Wf(st) && Enabled(st, a) && j < |st.count| && Flight(st, j)
    ensures Wf(Step(st, a)) && |Step(st, a).count| == |st.count| && Flight(Step(st, a), j)
  {
    StepWf(st, a);
    if a.Work? {
      WorkerFlight(st, a.i, j);
    } else if a.Call? {
      CallerFlight(st, a.i, a.wake, j);
    } else if a.Begin? {
      PushSumAppend(st.callers, Caller(Enter, a.job, false), j);
    } else if a.Spurious? {
      WorkerSums(st.workers, a.i, Worker(Woken, -1), j);
    } else if a.Farewell? {
      SignalSums(st, a.wake, j);
    }
  }

  /** A job is in at most one place: queued once, or with one worker, or about to be pushed. */
  lemma FlightMeans(st: State, j: nat)
    requires Wf(st) && j < |st.count| && Flight(st, j)
    ensures multiset(st.queue)[j] <= 1
    ensures forall i, k :: 0 <= i < k < |st.workers| ==> InHand(st.workers[i], j) + InHand(st.workers[k], j) <= 1
    ensures forall i :: 0 <= i < |st.workers| && InHand(st.workers[i], j) == 1 ==> j !in st.queue && st.count[j] > 0
    ensures forall i :: 0 <= i < |st.callers| && st.callers[i].pc.Pushing? && st.callers[i].job == j ==> j !in st.queue
    ensures j in st.queue ==> st.count[j] > 0
  {
    forall i, k | 0 <= i < k < |st.workers| ensures InHand(st.workers[i], j) + InHand(st.workers[k], j) <= 1 {
      WorkerSums(st.workers, i, Worker(Check, -1), j);
      WorkerSums(st.workers[i := Worker(Check, -1)], k, Worker(Check, -1), j);
    }
    forall i | 0 <= i < |st.workers| && InHand(st.workers[i], j) == 1 ensures j !in st.queue && st.count[j] > 0 {
      WorkerSums(st.workers, i, Worker(Check, -1), j);
    }
    forall i | 0 <= i < |st.callers| && st.callers[i].pc.Pushing? && st.callers[i].job == j ensures j !in st.queue {
      CallerSums(st.callers, i, st.callers[i], j);
    }
  }

  /** While the pool runs, a signalled job is queued, with a worker, or about to be pushed. */
  lemma FlightFinds(st: State, j: nat)
    requires Wf(st) && j < |st.count| && Flight(st, j) && st.running && st.count[j] > 0
    ensures j in st.queue || (exists i :: 0 <= i < |st.workers| && InHand(st.workers[i], j) == 1)
                          || (exists i :: 0 <= i < |st.callers| && InPush(st.callers[i], j) == 1)
  {
    if j !in st.queue {
      if HandSum(st.workers, j) > 0 {
        HandFound(st.workers, j);
      } else {
        PushFound(st.callers, j);
      }
    }
  }

  lemma {:induction false} HandFound(ws: seq<Worker>, j: nat)
    requires HandSum(ws, j) > 0
    ensures exists i :: 0 <= i < |ws| && InHand(ws[i], j) == 1
  {
    if InHand(ws[0], j) == 0 {
      HandFound(ws[1..], j);
      var i :| 0 <= i < |ws[1..]| && InHand(ws[1..][i], j) == 1;
      assert ws[i + 1] == ws[1..][i];
    }
  }

  lemma {:induction false} PushFound(cs: seq<Caller>, j: nat)
    requires PushSum(cs, j) > 0
    ensures exists i :: 0 <= i < |cs| && InPush(cs[i], j) == 1
  {
    if InPush(cs[0], j) == 0 {
      PushFound(cs[1..], j);
      var i :| 0 <= i < |cs[1..]| && InPush(cs[1..][i], j) == 1;
      assert cs[i + 1] == cs[1..][i];
    }
  }

  // ---------------------------------------------------------------- no lost wake-up

  /** The caller has pushed and has not signalled yet. */
  predicate Owes(c: Caller)
  {
    c.pushed && (c.pc.AfterPush? || c.pc.Leave? || c.pc.ToSignal? || c.pc.Signalling?)
  }

  ghost predicate SomeAwake(ws: seq<Worker>)
  {
    exists i :: 0 <= i < |ws| && !ws[i].pc.Asleep? && !ws[i].pc.Exited?
  }

  ghost predicate NoneExited(ws: seq<Worker>)
  {
    forall i :: 0 <= i < |ws| ==> !ws[i].pc.Exited?
  }

  ghost predicate SomeOwes(cs: seq<Caller>)
  {
    exists i :: 0 <= i < |cs| && Owes(cs[i])
  }

  /**
    While the pool runs no worker exits, and for a job in the queue some worker is awake or a signal is still to come.
   */
  ghost predicate NotForgotten(st: State)
  {
    st.running ==>
      && NoneExited(st.workers)
      && (st.workers != [] && st.queue != [] ==> SomeAwake(st.workers) || SomeOwes(st.callers))
  }

  lemma StepNotForgotten(st: State, a: Action)
    requires Wf(st) && Enabled(st, a) && NotForgotten(st)
    ensures NotForgotten(Step(st, a))
  {
    var st' := Step(st, a);
    if a.Work? {
      assert st'.running ==> !st'.workers[a.i].pc.Exited? && (!st'.workers[a.i].pc.Asleep? || st'.queue == []);
    } else if a.Call? {
      CallerNotForgotten(st, a.i, a.wake);
    } else if a.Begin? {
      if SomeOwes(st.callers) {
        var k :| 0 <= k < |st.callers| && Owes(st.callers[k]);
        assert Owes(st'.callers[k]);
      }
    } else if a.Spurious? {
      assert !st'.workers[a.i].pc.Asleep?;
    } else if a.Farewell? {
      assert st.running && SomeAwake(st.workers) ==> SomeAwake(st'.workers) by {
        if SomeAwake(st.workers) {
          var k :| 0 <= k < |st.workers| && !st.workers[k].pc.Asleep? && !st.workers[k].pc.Exited?;
          assert st'.workers[k] == st.workers[k];
        }
      }
    }
  }

  lemma CallerNotForgotten(st: State, i: nat, wake: nat)
    requires Wf(st) && Enabled(st, Call(i, wake)) && NotForgotten(st)
    ensures NotForgotten(CallerStep(st, i, wake))
  {
    var c, st' := st.callers[i], CallerStep(st, i, wake);
    if st.workers == [] {
      return;
    }
    if c.pc.Signalling? {
      if SomeAsleep(st.workers) {
        assert !st'.workers[wake].pc.Asleep?;
      } else {
        assert !st'.workers[0].pc.Asleep?;
      }
    } else {
      assert st'.workers == st.workers;
      assert c.pc.Pushing? ==> Owes(st'.callers[i]);
      assert Owes(c) ==> Owes(st'.callers[i]);
      if SomeOwes(st.callers) {
        var k :| 0 <= k < |st.callers| && Owes(st.callers[k]);
        assert Owes(st'.callers[k]);
      }
    }
  }

  // ---------------------------------------------------------------- mutual exclusion

  predicate PoolHeld(pc: WorkerPc)
  {
    pc.HasPool? || pc.Popped? || pc.HasPush? || pc.Pushed? || pc.HasPop? || pc.PopDone?
  }

  predicate PoolHeldC(pc: CallerPc) { pc.Pushing? || pc.AfterPush? || pc.Signalling? || pc.AfterSignal? }

  predicate JobHeld(pc: WorkerPc) { pc.HasJob? || pc.WantPush? || pc.HasPush? || pc.Pushed? || pc.Release? }

  predicate JobHeldC(pc: CallerPc) { pc.Counting? || pc.ToPush? || pc.Pushing? || pc.AfterPush? || pc.Leave? }

  /** Whoever is in a critical section of the pool mutex owns it, and nobody else does. */
  ghost predicate PoolExclusive(st: State)
  {
    && (forall i :: 0 <= i < |st.workers| ==> (PoolHeld(st.workers[i].pc) <==> st.pool == ByWorker(i)))
    && (forall i :: 0 <= i < |st.callers| ==> (PoolHeldC(st.callers[i].pc) <==> st.pool == ByCaller(i)))
    && (st.pool.ByWorker? ==> st.pool.i < |st.workers|)
    && (st.pool.ByCaller? ==> st.pool.i < |st.callers|)
  }

  /** The same for the mutex of job `j`. */
  ghost predicate JobExclusive(st: State, j: nat)
    requires j < |st.locks|
  {
    && (forall i :: 0 <= i < |st.workers| ==> (JobHeld(st.workers[i].pc) && st.workers[i].job == j <==>
                                               st.locks[j] == ByWorker(i)))
    && (forall i :: 0 <= i < |st.callers| ==> (JobHeldC(st.callers[i].pc) && st.callers[i].job == j <==>
                                               st.locks[j] == ByCaller(i)))
    && (st.locks[j].ByWorker? ==> st.locks[j].i < |st.workers|)
    && (st.locks[j].ByCaller? ==> st.locks[j].i < |st.callers|)
  }

  lemma StepPoolExclusive(st: State, a: Action)
    requires Wf(st) && Enabled(st, a) && PoolExclusive(st)
    ensures PoolExclusive(Step(st, a))
  {
    var st' := Step(st, a);
    if a.Work? {
      var w, w' := st.workers[a.i].pc, st'.workers[a.i].pc;
      assert PoolHeld(w') <==> (if PoolHeld(w) then st'.pool != Nobody else st'.pool == ByWorker(a.i));
    } else if a.Call? {
      var c, c' := st.callers[a.i].pc, st'.callers[a.i].pc;
      assert PoolHeldC(c') <==> (if PoolHeldC(c) then st'.pool != Nobody else st'.pool == ByCaller(a.i));
    }
  }

  lemma WorkerJobExclusive(st: State, i: nat, j: nat)
    requires Wf(st) && Enabled(st, Work(i)) && j < |st.locks| && JobExclusive(st, j)
    ensures |WorkerStep(st, i).locks| == |st.locks| && JobExclusive(WorkerStep(st, i), j)
  {
    var w, st' := st.workers[i], WorkerStep(st, i);
    var w' := st'.workers[i];
    if w.pc.WantJob? || w.pc.Release? {
      assert w.job != j ==> st'.locks[j] == st.locks[j];
    } else {
      assert st'.locks == st.locks;
      assert JobHeld(w'.pc) && w'.job == j <==> JobHeld(w.pc) && w.job == j;
    }
  }

  lemma CallerJobExclusive(st: State, i: nat, wake: nat, j: nat)
    requires Wf(st) && Enabled(st, Call(i, wake)) && j < |st.locks| && JobExclusive(st, j)
    ensures |CallerStep(st, i, wake).locks| == |st.locks| && JobExclusive(CallerStep(st, i, wake), j)
  {
    var c, st' := st.callers[i], CallerStep(st, i, wake);
    if c.pc.Enter? || c.pc.Leave? {
      assert c.job != j ==> st'.locks[j] == st.locks[j];
    } else {
      assert st'.locks == st.locks;
      assert JobHeldC(st'.callers[i].pc) <==> JobHeldC(c.pc);
    }
  }

  lemma StepJobExclusive(st: State, a: Action, j: nat)
    requires Wf(st) && Enabled(st, a) && j < |st.locks| && JobExclusive(st, j)
    ensures |Step(st, a).locks| == |st.locks| && JobExclusive(Step(st, a), j)
  {
    if a.Work? {
      WorkerJobExclusive(st, a.i, j);
    } else if a.Call? {
      CallerJobExclusive(st, a.i, a.wake, j);
    }
  }

  /** Both kinds of mutex exclude. */
  ghost predicate Exclusive(st: State)
  {
    PoolExclusive(st) && forall j :: 0 <= j < |st.locks| ==> JobExclusive(st, j)
  }

  lemma StepExclusive(st: State, a: Action)
    requires Wf(st) && Enabled(st, a) && Exclusive(st)
    ensures Wf(Step(st, a)) && Exclusive(Step(st, a))
  {
    StepWf(st, a);
    StepPoolExclusive(st, a);
    forall j | 0 <= j < |Step(st, a).locks| ensures JobExclusive(Step(st, a), j) {
      StepJobExclusive(st, a, j);
    }
  }

  // ---------------------------------------------------------------- every interleaving

  ghost predicate Inv(st: State)
  {
    && Wf(st) && NotForgotten(st)
    && (forall j :: 0 <= j < |st.count| ==> Flight(st, j))
  }

  ghost predicate EnabledRun(st: State, actions: seq<Action>)
    requires Wf(st)
    decreases |actions|
  {
    actions == [] ||
    (Enabled(st, actions[0]) && (StepWf(st, actions[0]); EnabledRun(Step(st, actions[0]), actions[1..])))
  }

  ghost function Run(st: State, actions: seq<Action>): (st': State)
    requires Wf(st) && EnabledRun(st, actions)
    ensures Wf(st')
    decreases |actions|
  {
    if actions == [] then st else StepWf(st, actions[0]); Run(Step(st, actions[0]), actions[1..])
  }

  lemma StepSafe(st: State, a: Action)
    requires Inv(st) && Enabled(st, a)
    ensures Inv(Step(st, a))
  {
    StepWf(st, a);
    StepNotForgotten(st, a);
    forall j | 0 <= j < |st.count| ensures Flight(Step(st, a), j) {
      StepFlight(st, a, j);
    }
  }

  /** In every interleaving: single flight, exact counting, no lost wake-up. */
  lemma {:induction false} RunSafe(st: State, actions: seq<Action>)
    requires Inv(st) && EnabledRun(st, actions)
    ensures Inv(Run(st, actions))
    decreases |actions|
  {
    if actions != [] {
      StepSafe(st, actions[0]);
      RunSafe(Step(st, actions[0]), actions[1..]);
    }
  }

  /** In every interleaving: the two kinds of mutex exclude. */
  lemma {:induction false} RunExclusive(st: State, actions: seq<Action>)
    requires Wf(st) && EnabledRun(st, actions) && Exclusive(st)
    ensures Exclusive(Run(st, actions))
    decreases |actions|
  {
    if actions != [] {
      StepExclusive(st, actions[0]);
      RunExclusive(Step(st, actions[0]), actions[1..]);
    }
  }

  /** The pool after `workers` threads have been started, with a number of jobs initialised. */
  function Init(workers: nat, jobs: nat): State
  {
    State(true, [], Nobody, seq(jobs, _ => Nobody), seq(jobs, _ => 0), seq(workers, _ => Worker(Check, -1)), [],
          seq(jobs, _ => 0), seq(jobs, _ => 0), 0)
  }

  lemma InitSafe(workers: nat, jobs: nat)
    ensures
      var st := Init(workers, jobs);
      Inv(st) && Exclusive(st)
  {
    var st := Init(workers, jobs);
    forall j | 0 <= j < jobs ensures Flight(st, j) {
      NoHands(st.workers, j);
    }
  }

  lemma {:induction false} NoHands(ws: seq<Worker>, j: nat)
    requires forall i :: 0 <= i < |ws| ==> ws[i] == Worker(Check, -1)
    ensures HandSum(ws, j) == 0 && ClosingSum(ws, j) == 0
  {
    if ws != [] {
      NoHands(ws[1..], j);
    }
  }
}
