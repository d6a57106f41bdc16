/**
  When running a task on every vCPU comes to an end: a vCPU that is itself inside a call does not run its task, so two
  vCPUs that call at once wait for each other for ever.
 */
module RunOnAllProgress {
  import opened RunOnAll

  // ---------------------------------------------------------------- callers on vCPUs

  predicate Active(x: Caller) { !x.pc.Returned? && !x.pc.Died? }

  /** A caller on a vCPU keeps that vCPU to itself, which runs the task in between and has then run it. */
  ghost predicate OwnVcpu(st: State, c: nat)
    requires c < |st.callers|
  {
    var x := st.callers[c];
    && (x.pc.Self? ==> 0 <= x.self < x.next)
    && (Active(x) && 0 <= x.self < |st.vcpus| ==>
          var y := st.vcpus[x.self];
          && y.calling
          && (if x.pc.Self? then y.pc.Execute? || y.pc.Clear? || y.pc.Report? || y.pc.InCall? else y.pc.InCall?)
          && (st.owner == c && x.self < x.next ==> y.pc.Execute? || y.runs == 1))
  }

  /** No two callers are on one vCPU. */
  predicate Differ(x: Caller, y: Caller) { Active(x) && Active(y) && 0 <= x.self ==> x.self != y.self }

  ghost predicate Calls(st: State)
  {
    && (forall c :: 0 <= c < |st.callers| ==> OwnVcpu(st, c))
    && (forall c, d :: 0 <= c < d < |st.callers| ==> Differ(st.callers[c], st.callers[d]))
  }

  lemma RunCalls(st: State, v: nat)
    requires Inv(st) && Calls(st) && RunEnabled(st, v)
    ensures Calls(RunStep(st, v))
  {
    var st' := RunStep(st, v);
    forall c | 0 <= c < |st'.callers| ensures OwnVcpu(st', c) {
      assert OwnVcpu(st, c);
      if st.owner == c {
        assert v < st.callers[c].next ==> Dealt(st.vcpus[v], st.callers[c].task);
      }
    }
  }

  lemma CallCalls(st: State, c: nat)
    requires Inv(st) && Calls(st) && CallEnabled(st, c)
    ensures Calls(CallStep(st, c))
  {
    var st' := CallStep(st, c);
    assert OwnVcpu(st, c);
    forall d | 0 <= d < |st'.callers| ensures OwnVcpu(st', d) {
      assert OwnVcpu(st, d);
    }
  }

  lemma BeginCalls(st: State, task: nat, self: int)
    requires Inv(st) && Calls(st) && BeginEnabled(st, self)
    ensures Calls(BeginStep(st, task, self))
  {
    var st' := BeginStep(st, task, self);
    forall d | 0 <= d < |st.callers| ensures OwnVcpu(st', d) && Differ(st'.callers[d], st'.callers[|st.callers|]) {
      assert OwnVcpu(st, d);
      assert st'.callers[d] == st.callers[d];
    }
    assert OwnVcpu(st', |st.callers|);
  }

  lemma StepCalls(st: State, a: Action)
    requires Inv(st) && Calls(st) && Enabled(st, a)
    ensures Calls(Step(st, a))
  {
    match a
    case Begin(task, self) => BeginCalls(st, task, self);
    case Call(c) => CallCalls(st, c);
    case Run(v) => RunCalls(st, v);
  }

  lemma InitCalls(vcpus: nat)
    ensures Calls(Init(vcpus))
  {
  }

  // ---------------------------------------------------------------- a call that hangs

  /** The vCPU has not run the task of the call that is going on, and is inside a call of its own. */
  predicate Waits(st: State, v: nat)
    requires v < |st.vcpus|
  {
    && 0 <= st.owner < |st.callers|
    && v != st.callers[st.owner].self && st.vcpus[v].pc.InCall? && st.vcpus[v].runs == 0
  }

  /** A call takes the lock while the vCPU is inside another, or the vCPU begins one with its task still to run. */
  predicate Jams(st: State, a: Action, v: nat)
    requires v < |st.vcpus| && Enabled(st, a)
  {
    match a
    case Begin(_, self) => self == v && 0 <= st.owner && st.vcpus[v].runs == 0
    case Call(c) => st.callers[c].pc.Enter? && v != st.callers[c].self && st.vcpus[v].pc.InCall?
    case Run(_) => false
  }

  lemma CallWaits(st: State, c: nat, v: nat)
    requires Inv(st) && Calls(st) && CallEnabled(st, c) && v < |st.vcpus|
    ensures |CallStep(st, c).vcpus| == |st.vcpus|
    ensures Waits(CallStep(st, c), v) <==> Waits(st, v) || Jams(st, Call(c), v)
  {
    assert OwnVcpu(st, c);
    if st.callers[c].pc.Leave? {
      AllReported(st, c);
    }
  }

  lemma RunWaits(st: State, w: nat, v: nat)
    requires Inv(st) && Calls(st) && RunEnabled(st, w) && v < |st.vcpus|
    ensures |RunStep(st, w).vcpus| == |st.vcpus| && (Waits(RunStep(st, w), v) <==> Waits(st, v))
  {
    if st.owner >= 0 {
      var x := st.callers[st.owner];
      assert v < x.next ==> Dealt(st.vcpus[v], x.task);
      assert x.next <= v ==> Free(st.vcpus[v]);
    }
  }

  /** Exactly such steps make a vCPU hold a call up, and nothing lets it go on. */
  lemma WaitsExact(st: State, a: Action, v: nat)
    requires Inv(st) && Calls(st) && Enabled(st, a) && v < |st.vcpus|
    ensures |Step(st, a).vcpus| == |st.vcpus|
    ensures Waits(Step(st, a), v) <==> Waits(st, v) || Jams(st, a, v)
  {
    match a
    case Begin(task, self) =>
      if st.owner >= 0 {
        assert OwnVcpu(st, st.owner);
      }
    case Call(c) => CallWaits(st, c, v);
    case Run(w) => RunWaits(st, w, v);
  }

  /** While a vCPU holds a call up, no call is about to return. */
  lemma NoneLeaves(st: State, v: nat)
    requires Inv(st) && v < |st.vcpus| && Waits(st, v)
    ensures forall c :: 0 <= c < |st.callers| ==> !st.callers[c].pc.Leave?
  {
    forall c | 0 <= c < |st.callers| ensures !st.callers[c].pc.Leave? {
      if st.callers[c].pc.Leave? {
        AllReported(st, c);
      }
    }
  }

  lemma OwnerStays(st: State, a: Action, v: nat)
    requires Inv(st) && Calls(st) && Enabled(st, a) && v < |st.vcpus| && Waits(st, v)
    ensures Step(st, a).owner == st.owner
  {
    NoneLeaves(st, v);
  }

  /** A call that is held up is held up for good, and with it every other. */
  lemma {:induction false} HeldUpForGood(st: State, actions: seq<Action>, v: nat)
    requires Inv(st) && Calls(st) && v < |st.vcpus| && Waits(st, v) && EnabledRun(st, actions)
    ensures
      var st' := RunAll(st, actions);
      && v < |st'.vcpus| && Waits(st', v) && st'.owner == st.owner
      && forall c :: 0 <= c < |st'.callers| ==> !st'.callers[c].pc.Leave?
    decreases |actions|
  {
    if actions == [] {
      NoneLeaves(st, v);
    } else {
      StepInv(st, actions[0]);
      StepCalls(st, actions[0]);
      WaitsExact(st, actions[0], v);
      OwnerStays(st, actions[0], v);
      HeldUpForGood(Step(st, actions[0]), actions[1..], v);
    }
  }

  // ---------------------------------------------------------------- a call that returns

  /** The call has the lock, and every vCPU can still run its task. */
  ghost predicate Going(st: State, c: nat)
  {
    && Inv(st) && Calls(st) && c < |st.callers| && st.owner == c
    && NoneWaits(st)
  }

  lemma First(st: State, a: Action, rest: seq<Action>)
    requires Enabled(st, a) && EnabledRun(Step(st, a), rest)
    ensures EnabledRun(st, [a] + rest) && RunAll(st, [a] + rest) == RunAll(Step(st, a), rest)
  {
    assert ([a] + rest)[1..] == rest;
  }

  lemma {:induction false} Concat(st: State, a: seq<Action>, b: seq<Action>)
    requires EnabledRun(st, a) && EnabledRun(RunAll(st, a), b)
    ensures EnabledRun(st, a + b) && RunAll(st, a + b) == RunAll(RunAll(st, a), b)
    decreases |b|
  {
    if b == [] {
      assert a + b == a;
    } else {
      Extend(st, a, b[0]);
      assert a + b == a + [b[0]] + b[1..];
      Concat(st, a + [b[0]], b[1..]);
    }
  }

  lemma GoingOn(st: State, c: nat, a: Action)
    requires Going(st, c) && Enabled(st, a) && Step(st, a).owner == c && c < |Step(st, a).callers|
    requires forall v :: 0 <= v < |st.vcpus| ==> !Jams(st, a, v)
    ensures Going(Step(st, a), c)
  {
    StepInv(st, a);
    StepCalls(st, a);
    forall v | 0 <= v < |Step(st, a).vcpus| ensures v < |st.vcpus| && !Waits(Step(st, a), v) {
      if v < |st.vcpus| {
        WaitsExact(st, a, v);
      } else {
        WaitsExact(st, a, 0);
      }
    }
  }

  /** How many of its own steps a vCPU is away from having reported. */
  function Distance(y: Vcpu): nat
  {
    match y.pc
    case Guest => 5
    case Check => 4
    case Execute => 3
    case Clear => 2
    case Report => 1
    case InCall => 0
  }

  /** A vCPU that has been handed the task can report, with nothing else moving. */
  lemma {:induction false} CanReport(st: State, c: nat, v: nat) returns (run: seq<Action>)
    requires Going(st, c) && v < |st.vcpus| && v < st.callers[c].next && !Reported(st.vcpus[v])
    requires !st.vcpus[v].pc.InCall?
    ensures EnabledRun(st, run)
    ensures
      var st' := RunAll(st, run);
      && Going(st', c) && st'.callers == st.callers && |st'.vcpus| == |st.vcpus|
      && st'.vcpus == st.vcpus[v := st'.vcpus[v]] && Reported(st'.vcpus[v])
    decreases Distance(st.vcpus[v])
  {
    assert Dealt(st.vcpus[v], st.callers[c].task);
    GoingOn(st, c, Run(v));
    run := [];
    if !Reported(Step(st, Run(v)).vcpus[v]) {
      run := CanReport(Step(st, Run(v)), c, v);
    }
    First(st, Run(v), run);
    run := [Run(v)] + run;
  }

  /** How many of its own steps a call has to go. */
  function Ahead(x: Caller, n: nat): nat
  {
    match x.pc
    case Deal => if x.next < n then 2 * (n - x.next) + 6 else 6
    case Self => if x.next < n then 2 * (n - x.next) + 7 else 7
    case Collect => if x.done < n then 3 else 2
    case Leave => 1
    case _ => 0
  }

  lemma {:induction false} SomeUnreported(vs: seq<Vcpu>) returns (v: nat)
    requires Reports(vs) < |vs|
    ensures v < |vs| && !Reported(vs[v])
  {
    v := 0;
    if Reported(vs[0]) {
      var w := SomeUnreported(vs[1..]);
      v := w + 1;
    }
  }

  /** A vCPU that the call waits for and that can move: its own while that runs the task, or one still to report. */
  lemma Awaited(st: State, c: nat) returns (v: nat)
    requires Going(st, c) && !CallReady(st, c)
    ensures v < |st.vcpus| && v < st.callers[c].next && !Reported(st.vcpus[v]) && !st.vcpus[v].pc.InCall?
  {
    var x := st.callers[c];
    assert OwnVcpu(st, c);
    if x.pc.Self? {
      v := x.self;
      assert Dealt(st.vcpus[v], x.task);
    } else {
      ReportsBounds(st.vcpus);
      v := SomeUnreported(st.vcpus);
      assert Dealt(st.vcpus[v], x.task) && !Waits(st, v);
    }
  }

  /** The call can take its next step. */
  ghost predicate CallReady(st: State, c: nat)
    requires c < |st.callers|
  {
    var x := st.callers[c];
    && (x.pc.Self? ==> 0 <= x.self < |st.vcpus| && st.vcpus[x.self].pc.InCall?)
    && (x.pc.Collect? ==> Reports(st.vcpus) == |st.vcpus|)
  }

  lemma CallerSteps(st: State, c: nat)
    requires Going(st, c) && CallReady(st, c)
    ensures Enabled(st, Call(c)) && |Step(st, Call(c)).vcpus| == |st.vcpus| && c < |Step(st, Call(c)).callers|
    ensures
      var x, st' := st.callers[c], Step(st, Call(c));
      if x.pc.Leave? then st'.callers[c].pc.Returned? && st'.owner == -1 && Inv(st') && Calls(st')
      else Going(st', c) && Ahead(st'.callers[c], |st.vcpus|) < Ahead(x, |st.vcpus|)
  {
    var x := st.callers[c];
    assert OwnVcpu(st, c);
    if x.pc.Deal? && x.next < |st.vcpus| {
      assert Free(st.vcpus[x.next]);
    }
    if x.pc.Leave? {
      StepInv(st, Call(c));
      StepCalls(st, Call(c));
    } else {
      GoingOn(st, c, Call(c));
    }
  }

  /** A call that has counted all reports can return: the lock is free for the next, its vCPU back in its loop. */
  lemma ReturnReleases(st: State, c: nat)
    requires Inv(st) && Calls(st) && c < |st.callers| && st.callers[c].pc.Leave?
    ensures Enabled(st, Call(c))
    ensures
      var x, st' := st.callers[c], Step(st, Call(c));
      && Inv(st') && Calls(st') && st'.owner == -1 && c < |st'.callers| && st'.callers[c].pc.Returned?
      && |st'.vcpus| == |st.vcpus|
      && (0 <= x.self ==> st'.vcpus[x.self].pc.Guest? && !st'.vcpus[x.self].calling)
      && (forall v :: 0 <= v < |st.vcpus| && v != x.self ==> st'.vcpus[v] == st.vcpus[v])
      && (forall d :: 0 <= d < |st'.callers| && st'.callers[d].pc.Enter? ==> Enabled(st', Call(d)))
  {
    StepInv(st, Call(c));
    StepCalls(st, Call(c));
  }

  /** Where every vCPU can still run its task, the call can return, and then the lock is free. */
  lemma {:induction false} CanReturn(st: State, c: nat) returns (run: seq<Action>)
    requires Going(st, c)
    ensures EnabledRun(st, run)
    ensures
      var st' := RunAll(st, run);
      c < |st'.callers| && st'.callers[c].pc.Returned? && st'.owner == -1 && Inv(st') && Calls(st')
    decreases Ahead(st.callers[c], |st.vcpus|), |st.vcpus| - Reports(st.vcpus)
  {
    ReportsBounds(st.vcpus);
    if CallReady(st, c) {
      CallerSteps(st, c);
      run := [];
      if !st.callers[c].pc.Leave? {
        run := CanReturn(Step(st, Call(c)), c);
      }
      First(st, Call(c), run);
      run := [Call(c)] + run;
    } else {
      var v := Awaited(st, c);
      var first := CanReport(st, c, v);
      ReportsUpdate(st.vcpus, v, RunAll(st, first).vcpus[v]);
      ReportsBounds(RunAll(st, first).vcpus);
      var rest := CanReturn(RunAll(st, first), c);
      Concat(st, first, rest);
      run := first + rest;
    }
  }

  /** On the run the call comes to return. */
  predicate ReturnsAfter(st: State, run: seq<Action>, c: nat)
  {
    EnabledRun(st, run) && c < |RunAll(st, run).callers| && RunAll(st, run).callers[c].pc.Returned?
  }

  /** A call that has the lock can return exactly when no vCPU holds it up. */
  lemma ReturnExact(st: State, c: nat)
    requires Inv(st) && Calls(st) && c < |st.callers| && st.owner == c
    ensures (exists run :: ReturnsAfter(st, run, c)) <==>
            forall v :: 0 <= v < |st.vcpus| ==> !Waits(st, v)
  {
    if v :| 0 <= v < |st.vcpus| && Waits(st, v) {
      forall run | EnabledRun(st, run) ensures !ReturnsAfter(st, run, c) {
        HeldUpForGood(st, run, v);
        CallsComplete(st, run);
      }
    } else {
      var run := CanReturn(st, c);
      assert ReturnsAfter(st, run, c);
    }
  }

  // ---------------------------------------------------------------- with the lock free

  /** A call that is about to enter can return if no other vCPU is inside a call. */
  lemma LoneCallReturns(st: State, c: nat) returns (run: seq<Action>)
    requires Inv(st) && Calls(st) && st.owner == -1 && c < |st.callers| && st.callers[c].pc.Enter?
    requires forall v :: 0 <= v < |st.vcpus| && v != st.callers[c].self ==> !st.vcpus[v].pc.InCall?
    ensures EnabledRun(st, run)
    ensures
      var st' := RunAll(st, run);
      c < |st'.callers| && st'.callers[c].pc.Returned? && st'.owner == -1 && Inv(st') && Calls(st')
  {
    StepInv(st, Call(c));
    StepCalls(st, Call(c));
    forall v | 0 <= v < |Step(st, Call(c)).vcpus| ensures !Waits(Step(st, Call(c)), v) {
      WaitsExact(st, Call(c), v);
    }
    run := CanReturn(Step(st, Call(c)), c);
    First(st, Call(c), run);
    run := [Call(c)] + run;
  }

  /** The lock is free and two vCPUs are inside a call, or one of them holds a call up. */
  ghost predicate Crossed(st: State, v: nat, w: nat)
  {
    && v < |st.vcpus| && w < |st.vcpus| && v != w
    && ((st.owner == -1 && st.vcpus[v].pc.InCall? && st.vcpus[w].pc.InCall?) || Waits(st, v) || Waits(st, w))
  }

  lemma CrossedStep(st: State, a: Action, v: nat, w: nat)
    requires Inv(st) && Calls(st) && Enabled(st, a) && Crossed(st, v, w)
    ensures Crossed(Step(st, a), v, w)
  {
    WaitsExact(st, a, v);
    WaitsExact(st, a, w);
  }

  /** Two vCPUs that are inside a call with the lock free: no call of anyone ever returns again. */
  lemma {:induction false} TwoCallsHang(st: State, actions: seq<Action>, v: nat, w: nat)
    requires Inv(st) && Calls(st) && Crossed(st, v, w) && EnabledRun(st, actions)
    ensures
      var st' := RunAll(st, actions);
      Crossed(st', v, w) && forall c :: 0 <= c < |st'.callers| ==> !st'.callers[c].pc.Leave?
    decreases |actions|
  {
    if actions == [] {
      if Waits(st, v) {
        NoneLeaves(st, v);
      } else if Waits(st, w) {
        NoneLeaves(st, w);
      }
    } else {
      StepInv(st, actions[0]);
      StepCalls(st, actions[0]);
      CrossedStep(st, actions[0], v, w);
      TwoCallsHang(Step(st, actions[0]), actions[1..], v, w);
    }
  }

  /** With the lock free, a call that a vCPU is about to enter can return exactly when no other vCPU is inside one. */
  lemma EnteringExact(st: State, c: nat)
    requires Inv(st) && Calls(st) && st.owner == -1 && c < |st.callers| && st.callers[c].pc.Enter?
    requires st.callers[c].self >= 0
    ensures (exists run :: ReturnsAfter(st, run, c)) <==>
            forall v :: 0 <= v < |st.vcpus| && v != st.callers[c].self ==> !st.vcpus[v].pc.InCall?
  {
    assert OwnVcpu(st, c);
    if v :| 0 <= v < |st.vcpus| && v != st.callers[c].self && st.vcpus[v].pc.InCall? {
      forall run | EnabledRun(st, run) ensures !ReturnsAfter(st, run, c) {
        NeverReturns(st, run, c, v);
      }
    } else {
      var run := LoneCallReturns(st, c);
      assert ReturnsAfter(st, run, c);
    }
  }

  lemma StaysActive(st: State, a: Action, c: nat)
    requires Inv(st) && Enabled(st, a) && c < |st.callers| && Active(st.callers[c]) && !st.callers[c].pc.Leave?
    ensures c < |Step(st, a).callers|
    ensures Step(st, a).callers[c].self == st.callers[c].self && Active(Step(st, a).callers[c])
  {
    StepInv(st, a);
  }

  lemma {:induction false} NeverReturns(st: State, actions: seq<Action>, c: nat, v: nat)
    requires Inv(st) && Calls(st) && EnabledRun(st, actions) && c < |st.callers| && Active(st.callers[c])
    requires 0 <= st.callers[c].self && Crossed(st, v, st.callers[c].self)
    ensures c < |RunAll(st, actions).callers| && Active(RunAll(st, actions).callers[c])
    decreases |actions|
  {
    if actions != [] {
      var a := actions[0];
      StepInv(st, a);
      StepCalls(st, a);
      CrossedStep(st, a, v, st.callers[c].self);
      TwoCallsHang(st, [], v, st.callers[c].self);
      StaysActive(st, a, c);
      NeverReturns(Step(st, a), actions[1..], c, v);
    }
  }

  // ---------------------------------------------------------------- runs

  ghost predicate NoneWaits(st: State) { forall v :: 0 <= v < |st.vcpus| ==> !Waits(st, v) }

  ghost predicate NeverJams(st: State, actions: seq<Action>)
    requires EnabledRun(st, actions)
    decreases |actions|
  {
    actions == [] ||
    ((forall v :: 0 <= v < |st.vcpus| ==> !Jams(st, actions[0], v)) && NeverJams(Step(st, actions[0]), actions[1..]))
  }

  ghost predicate GoingAlong(st: State, actions: seq<Action>)
    requires EnabledRun(st, actions)
    decreases |actions|
  {
    NoneWaits(st) && (actions == [] || GoingAlong(Step(st, actions[0]), actions[1..]))
  }

  lemma NoneWaitsStep(st: State, a: Action)
    requires Inv(st) && Calls(st) && Enabled(st, a) && NoneWaits(st)
    ensures NoneWaits(Step(st, a)) <==> forall v :: 0 <= v < |st.vcpus| ==> !Jams(st, a, v)
  {
    forall v | 0 <= v < |st.vcpus|
      ensures |Step(st, a).vcpus| == |st.vcpus| && (Waits(Step(st, a), v) <==> Jams(st, a, v))
    {
      WaitsExact(st, a, v);
    }
    if |st.vcpus| == 0 {
      assert |Step(st, a).vcpus| == 0;
    }
  }

  /**
    On every run no call is ever held up exactly when none takes the lock while another vCPU is inside a call, and no
    vCPU begins one with its task still to run.
   */
  lemma {:induction false} GoingExact(st: State, actions: seq<Action>)
    requires Inv(st) && Calls(st) && EnabledRun(st, actions) && NoneWaits(st)
    ensures GoingAlong(st, actions) <==> NeverJams(st, actions)
    decreases |actions|
  {
    if actions != [] {
      StepInv(st, actions[0]);
      StepCalls(st, actions[0]);
      NoneWaitsStep(st, actions[0]);
      if NoneWaits(Step(st, actions[0])) {
        GoingExact(Step(st, actions[0]), actions[1..]);
      }
    }
  }

  /** That happens: two vCPUs each begin a call. */
  lemma TwoCallsHappen() returns (run: seq<Action>)
    ensures EnabledRun(Init(2), run) && Crossed(RunAll(Init(2), run), 0, 1)
    ensures Inv(RunAll(Init(2), run)) && Calls(RunAll(Init(2), run))
  {
    InitInv(2);
    InitCalls(2);
    var one := Step(Init(2), Begin(5, 0));
    StepInv(Init(2), Begin(5, 0));
    StepCalls(Init(2), Begin(5, 0));
    StepInv(one, Begin(6, 1));
    StepCalls(one, Begin(6, 1));
    First(one, Begin(6, 1), []);
    First(Init(2), Begin(5, 0), [Begin(6, 1)]);
    run := [Begin(5, 0)] + [Begin(6, 1)];
  }
}
