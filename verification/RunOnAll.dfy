/**
  Running a task on every vCPU: a caller hands out the task and waits for as many completions as there are
  vCPUs, under every interleaving of any number of callers.
 */
module RunOnAll {

  /** Where a vCPU thread is. */
  datatype VcpuPc =
    | Guest    // anywhere else in its run loop
    | Check    // about to test its task slot
    | Execute  // about to run the task
    | Clear    // has run it, about to clear the slot
    | Report   // about to write the event
    | InCall   // is itself a caller of run-on-all

  /** `slot` is the task handed out, -1 for none; `runs` counts the runs of the current round, of task `last`. */
  datatype Vcpu = Vcpu(pc: VcpuPc, slot: int, calling: bool, runs: nat, last: int)

  /** Where a caller is. */
  datatype CallerPc =
    | Enter    // about to take the task lock
    | Deal     // about to hand the task to vCPU number `next`
    | Self     // running the task on its own vCPU
    | Collect  // about to read the event
    | Leave    // about to release the lock
    | Returned
    | Died     // "already has a task pending"

  /** `self` is the vCPU the caller runs on, -1 for another thread. */
  datatype Caller = Caller(pc: CallerPc, task: nat, self: int, next: nat, done: nat)

  /** `owner` is the caller that holds the task lock, -1 for none; `counter` is the value of the event. */
  datatype State = State(owner: int, counter: nat, vcpus: seq<Vcpu>, callers: seq<Caller>)

  datatype Action =
    | Begin(task: nat, self: int)   // a call starts, on a vCPU that is free to make it or on another thread
    | Call(c: nat)                  // a caller takes its next step
    | Run(v: nat)                   // a vCPU takes its next step

  // ---------------------------------------------------------------- steps

  predicate BeginEnabled(st: State, self: int)
  {
    self == -1 || (0 <= self < |st.vcpus| && st.vcpus[self].pc.Guest?)
  }

  function BeginStep(st: State, task: nat, self: int): State
    requires BeginEnabled(st, self)
  {
    st.(callers := st.callers + [Caller(Enter, task, self, 0, 0)],
        vcpus := if self == -1 then st.vcpus else st.vcpus[self := st.vcpus[self].(pc := InCall, calling := true)])
  }

  /** A new round starts with no vCPU having run the task. */
  function Fresh(vs: seq<Vcpu>): (r: seq<Vcpu>)
    ensures |r| == |vs| && forall i :: 0 <= i < |vs| ==> r[i] == vs[i].(runs := 0, last := -1)
  {
    seq(|vs|, i requires 0 <= i < |vs| => vs[i].(runs := 0, last := -1))
  }

  predicate CallEnabled(st: State, c: nat)
  {
    && c < |st.callers|
    && var x := st.callers[c];
    && !x.pc.Returned? && !x.pc.Died?
    && x.self < |st.vcpus| && -1 <= x.self
    && (x.pc.Enter? ==> st.owner == -1)
    && (x.pc.Self? ==> 0 <= x.self && st.vcpus[x.self].pc.InCall?)
    && (x.pc.Collect? && x.done < |st.vcpus| ==> st.counter > 0)
  }

  function CallStep(st: State, c: nat): State
    requires CallEnabled(st, c)
  {
    var x := st.callers[c];
    match x.pc
    case Enter => st.(owner := c, vcpus := Fresh(st.vcpus),
                      callers := st.callers[c := x.(pc := Deal, next := 0, done := 0)])
    case Deal =>
      if x.next >= |st.vcpus| then st.(callers := st.callers[c := x.(pc := Collect)])
      else if st.vcpus[x.next].slot >= 0 then st.(callers := st.callers[c := x.(pc := Died)])
      else
        var y := st.vcpus[x.next].(slot := x.task);
        if x.next == x.self then
          st.(vcpus := st.vcpus[x.next := y.(pc := Execute)],
              callers := st.callers[c := x.(pc := Self, next := x.next + 1)])
        else st.(vcpus := st.vcpus[x.next := y], callers := st.callers[c := x.(next := x.next + 1)])
    case Self => st.(callers := st.callers[c := x.(pc := Deal)])
    case Collect =>
      if x.done >= |st.vcpus| then st.(callers := st.callers[c := x.(pc := Leave)])
      else st.(counter := 0, callers := st.callers[c := x.(done := x.done + st.counter)])
    case Leave =>
      st.(owner := -1, callers := st.callers[c := x.(pc := Returned)],
          vcpus := if x.self == -1 then st.vcpus else st.vcpus[x.self := st.vcpus[x.self].(pc := Guest,
                                                                                           calling := false)])
    case Returned => st
    case Died => st
  }

  predicate RunEnabled(st: State, v: nat)
  {
    v < |st.vcpus| && !st.vcpus[v].pc.InCall?
  }

  function RunStep(st: State, v: nat): State
    requires RunEnabled(st, v)
  {
    var y := st.vcpus[v];
    match y.pc
    case Guest => st.(vcpus := st.vcpus[v := y.(pc := Check)])
    case Check => st.(vcpus := st.vcpus[v := y.(pc := if y.slot >= 0 then Execute else Guest)])
    case Execute => st.(vcpus := st.vcpus[v := y.(pc := Clear, runs := y.runs + 1, last := y.slot)])
    case Clear => st.(vcpus := st.vcpus[v := y.(pc := Report, slot := -1)])
    case Report => st.(counter := st.counter + 1, vcpus := st.vcpus[v := y.(pc := if y.calling then InCall else Guest)])
    case InCall => st
  }

  predicate Enabled(st: State, a: Action)
  {
    match a
    case Begin(_, self) => BeginEnabled(st, self)
    case Call(c) => CallEnabled(st, c)
    case Run(v) => RunEnabled(st, v)
  }

  function Step(st: State, a: Action): State
    requires Enabled(st, a)
  {
    match a
    case Begin(task, self) => BeginStep(st, task, self)
    case Call(c) => CallStep(st, c)
    case Run(v) => RunStep(st, v)
  }

  // ---------------------------------------------------------------- the invariant

  /** The vCPU has run the task, cleared its slot and reported. */
  predicate Reported(y: Vcpu) { y.runs == 1 && !y.pc.Clear? && !y.pc.Report? }

  ghost function Reports(vs: seq<Vcpu>): nat
  {
    if vs == [] then 0 else (if Reported(vs[0]) then 1 else 0) + Reports(vs[1..])
  }

  lemma {:induction false} ReportsUpdate(vs: seq<Vcpu>, i: nat, y: Vcpu)
    requires i < |vs|
    ensures Reports(vs[i := y]) == Reports(vs) - (if Reported(vs[i]) then 1 else 0) + (if Reported(y) then 1 else 0)
  {
    if i > 0 {
      ReportsUpdate(vs[1..], i - 1, y);
      assert vs[i := y][1..] == vs[1..][i - 1 := y];
    } else {
      assert vs[i := y][1..] == vs[1..];
    }
  }

  lemma {:induction false} ReportsBounds(vs: seq<Vcpu>)
    ensures Reports(vs) <= |vs|
    ensures Reports(vs) == |vs| ==> forall i :: 0 <= i < |vs| ==> Reported(vs[i])
    ensures (forall i :: 0 <= i < |vs| ==> !Reported(vs[i])) ==> Reports(vs) == 0
  {
    if vs != [] {
      ReportsBounds(vs[1..]);
      assert forall i :: 0 < i < |vs| ==> vs[i] == vs[1..][i - 1];
    }
  }

  /** A vCPU with nothing to do with any round. */
  predicate Free(y: Vcpu) { y.slot == -1 && !y.pc.Execute? && !y.pc.Clear? && !y.pc.Report? }

  /** A vCPU that has been handed task `t`: waiting to run it, or having run it once. */
  predicate Dealt(y: Vcpu, t: nat)
  {
    if y.runs == 0 then y.slot == t && !y.pc.Clear? && !y.pc.Report?
    else y.runs == 1 && y.last == t && !y.pc.Execute? && (y.slot == if y.pc.Clear? then t else -1)
  }

  ghost predicate Wf(st: State)
  {
    && -1 <= st.owner < |st.callers|
    && (forall v :: 0 <= v < |st.vcpus| ==> -1 <= st.vcpus[v].slot && (st.vcpus[v].pc.InCall? ==> st.vcpus[v].calling))
    && (forall c :: 0 <= c < |st.callers| ==> -1 <= st.callers[c].self < |st.vcpus|)
    && (forall c :: 0 <= c < |st.callers| ==>
          (st.owner == c <==> (var pc := st.callers[c].pc; pc.Deal? || pc.Self? || pc.Collect? || pc.Leave?)))
    && (forall c :: 0 <= c < |st.callers| ==> !st.callers[c].pc.Died?)
  }

  /** What the holder of the lock may rely on. */
  ghost predicate Round(st: State, x: Caller)
  {
    && x.next <= |st.vcpus|
    && (forall v :: 0 <= v < x.next ==> Dealt(st.vcpus[v], x.task))
    && (forall v :: x.next <= v < |st.vcpus| ==> Free(st.vcpus[v]) && st.vcpus[v].runs == 0)
    && st.counter + x.done == Reports(st.vcpus)
    && (x.pc.Deal? || x.pc.Self? ==> x.done == 0)
    && (x.pc.Collect? || x.pc.Leave? ==> x.next == |st.vcpus|)
    && (x.pc.Leave? ==> x.done == |st.vcpus|)
  }

  /** Between rounds every slot is empty, no vCPU is at work and the event is drained. */
  ghost predicate Quiet(st: State)
  {
    st.counter == 0 && forall v :: 0 <= v < |st.vcpus| ==> Free(st.vcpus[v])
  }

  ghost predicate Inv(st: State)
  {
    Wf(st) && if st.owner >= 0 then Round(st, st.callers[st.owner]) else Quiet(st)
  }

  lemma RunInv(st: State, v: nat)
    requires Inv(st) && RunEnabled(st, v)
    ensures Inv(RunStep(st, v))
  {
    var st' := RunStep(st, v);
    ReportsUpdate(st.vcpus, v, st'.vcpus[v]);
    assert st'.vcpus == st.vcpus[v := st'.vcpus[v]];
    if st.owner >= 0 {
      var x := st.callers[st.owner];
      assert if v < x.next then Dealt(st.vcpus[v], x.task) else Free(st.vcpus[v]) && st.vcpus[v].runs == 0;
    } else {
      assert Free(st.vcpus[v]);
    }
  }

  lemma EnterInv(st: State, c: nat)
    requires Inv(st) && CallEnabled(st, c) && st.callers[c].pc.Enter?
    ensures Inv(CallStep(st, c))
  {
    ReportsBounds(CallStep(st, c).vcpus);
  }

  lemma DealInv(st: State, c: nat)
    requires Inv(st) && CallEnabled(st, c) && st.callers[c].pc.Deal?
    ensures Inv(CallStep(st, c))
  {
    var x, st' := st.callers[c], CallStep(st, c);
    if x.next < |st.vcpus| {
      ReportsUpdate(st.vcpus, x.next, st'.vcpus[x.next]);
      assert Free(st.vcpus[x.next]);
    }
  }

  /** All reports counted means all vCPUs have reported and no report is left in the event. */
  lemma AllReported(st: State, c: nat)
    requires Inv(st) && c < |st.callers| && st.callers[c].pc.Leave?
    ensures st.counter == 0
    ensures forall v :: 0 <= v < |st.vcpus| ==>
      st.vcpus[v].slot == -1 && st.vcpus[v].runs == 1 && st.vcpus[v].last == st.callers[c].task && Reported(st.vcpus[v])
  {
    ReportsBounds(st.vcpus);
    forall v | 0 <= v < |st.vcpus|
      ensures st.vcpus[v].slot == -1 && st.vcpus[v].runs == 1 && st.vcpus[v].last == st.callers[c].task
    {
      assert Dealt(st.vcpus[v], st.callers[c].task) && Reported(st.vcpus[v]);
    }
  }

  lemma LeaveInv(st: State, c: nat)
    requires Inv(st) && CallEnabled(st, c) && st.callers[c].pc.Leave?
    ensures Inv(CallStep(st, c))
  {
    AllReported(st, c);
    forall v | 0 <= v < |st.vcpus| ensures Free(st.vcpus[v]) {
      assert Dealt(st.vcpus[v], st.callers[c].task);
    }
  }

  lemma CallInv(st: State, c: nat)
    requires Inv(st) && CallEnabled(st, c)
    ensures Inv(CallStep(st, c))
  {
    var x := st.callers[c];
    ReportsBounds(st.vcpus);
    if x.pc.Enter? {
      EnterInv(st, c);
    } else if x.pc.Deal? {
      DealInv(st, c);
    } else if x.pc.Leave? {
      LeaveInv(st, c);
    }
  }

  lemma BeginInv(st: State, task: nat, self: int)
    requires Inv(st) && BeginEnabled(st, self)
    ensures Inv(BeginStep(st, task, self))
  {
    if self >= 0 {
      ReportsUpdate(st.vcpus, self, st.vcpus[self].(pc := InCall, calling := true));
    }
  }

  lemma StepInv(st: State, a: Action)
    requires Inv(st) && Enabled(st, a)
    ensures Inv(Step(st, a))
  {
    if a.Begin? {
      BeginInv(st, a.task, a.self);
    } else if a.Call? {
      CallInv(st, a.c);
    } else {
      RunInv(st, a.v);
    }
  }

  // ---------------------------------------------------------------- every interleaving

  predicate EnabledRun(st: State, actions: seq<Action>)
    decreases |actions|
  {
    actions == [] || (Enabled(st, actions[0]) && EnabledRun(Step(st, actions[0]), actions[1..]))
  }

  function RunAll(st: State, actions: seq<Action>): State
    requires EnabledRun(st, actions)
    decreases |actions|
  {
    if actions == [] then st else RunAll(Step(st, actions[0]), actions[1..])
  }

  /**
    When a call is about to return, every vCPU has run its task exactly once, every slot is empty and the event
    drained.
   */
  ghost predicate Complete(st: State)
  {
    forall c, v :: 0 <= c < |st.callers| && st.callers[c].pc.Leave? && 0 <= v < |st.vcpus| ==>
      && st.vcpus[v].runs == 1 && st.vcpus[v].last == st.callers[c].task
      && st.vcpus[v].slot == -1 && st.counter == 0
  }

  /** In every interleaving calls complete only when done, and none finds a task pending. */
  lemma {:induction false} CallsComplete(st: State, actions: seq<Action>)
    requires Inv(st) && EnabledRun(st, actions)
    ensures
      var st' := RunAll(st, actions);
      Inv(st') && Complete(st') && forall c :: 0 <= c < |st'.callers| ==> !st'.callers[c].pc.Died?
    decreases |actions|
  {
    if actions == [] {
      forall c | 0 <= c < |st.callers| && st.callers[c].pc.Leave?
        ensures forall v :: 0 <= v < |st.vcpus| ==>
          st.vcpus[v].runs == 1 && st.vcpus[v].last == st.callers[c].task && st.vcpus[v].slot == -1 && st.counter == 0
      {
        AllReported(st, c);
      }
    } else {
      StepInv(st, actions[0]);
      CallsComplete(Step(st, actions[0]), actions[1..]);
    }
  }

  function Init(vcpus: nat): State
  {
    State(-1, 0, seq(vcpus, _ => Vcpu(Guest, -1, false, 0, -1)), [])
  }

  lemma InitInv(vcpus: nat)
    ensures Inv(Init(vcpus))
  {
  }

  lemma {:induction false} Extend(st: State, actions: seq<Action>, a: Action)
    requires EnabledRun(st, actions) && Enabled(RunAll(st, actions), a)
    ensures EnabledRun(st, actions + [a]) && RunAll(st, actions + [a]) == Step(RunAll(st, actions), a)
    decreases |actions|
  {
    if actions == [] {
      assert actions + [a] == [a] && [a][1..] == [];
    } else {
      Extend(Step(st, actions[0]), actions[1..], a);
      assert (actions + [a])[1..] == actions[1..] + [a];
    }
  }

  /** A caller on no vCPU hands task 5 to the one vCPU and waits for it. */
  lemma HandingOutHappens() returns (run: seq<Action>)
    ensures EnabledRun(Init(1), run)
    ensures RunAll(Init(1), run) == State(0, 0, [Vcpu(Guest, 5, false, 0, -1)], [Caller(Collect, 5, -1, 1, 0)])
  {
    run := [];
    var acts, s := [Begin(5, -1), Call(0), Call(0), Call(0)], Init(1);
    for i := 0 to 4
      invariant EnabledRun(Init(1), run) && RunAll(Init(1), run) == s
      invariant s == match i
        case 0 => State(-1, 0, [Vcpu(Guest, -1, false, 0, -1)], [])
        case 1 => State(-1, 0, [Vcpu(Guest, -1, false, 0, -1)], [Caller(Enter, 5, -1, 0, 0)])
        case 2 => State(0, 0, [Vcpu(Guest, -1, false, 0, -1)], [Caller(Deal, 5, -1, 0, 0)])
        case 3 => State(0, 0, [Vcpu(Guest, 5, false, 0, -1)], [Caller(Deal, 5, -1, 1, 0)])
        case _ => State(0, 0, [Vcpu(Guest, 5, false, 0, -1)], [Caller(Collect, 5, -1, 1, 0)])
    {
      Extend(Init(1), run, acts[i]);
      run, s := run + [acts[i]], Step(s, acts[i]);
    }
  }

  /** A call can return at all. */
  lemma ReturnHappens() returns (run: seq<Action>)
    ensures EnabledRun(Init(1), run)
    ensures RunAll(Init(1), run) == State(0, 0, [Vcpu(Guest, -1, false, 1, 5)], [Caller(Leave, 5, -1, 1, 1)])
  {
    run := HandingOutHappens();
    var acts, s := [Run(0), Run(0), Run(0), Run(0), Run(0), Call(0), Call(0)], RunAll(Init(1), run);
    for i := 0 to 7
      invariant EnabledRun(Init(1), run) && RunAll(Init(1), run) == s
      invariant s == match i
        case 0 => State(0, 0, [Vcpu(Guest, 5, false, 0, -1)], [Caller(Collect, 5, -1, 1, 0)])
        case 1 => State(0, 0, [Vcpu(Check, 5, false, 0, -1)], [Caller(Collect, 5, -1, 1, 0)])
        case 2 => State(0, 0, [Vcpu(Execute, 5, false, 0, -1)], [Caller(Collect, 5, -1, 1, 0)])
        case 3 => State(0, 0, [Vcpu(Clear, 5, false, 1, 5)], [Caller(Collect, 5, -1, 1, 0)])
        case 4 => State(0, 0, [Vcpu(Report, -1, false, 1, 5)], [Caller(Collect, 5, -1, 1, 0)])
        case 5 => State(0, 1, [Vcpu(Guest, -1, false, 1, 5)], [Caller(Collect, 5, -1, 1, 0)])
        case 6 => State(0, 0, [Vcpu(Guest, -1, false, 1, 5)], [Caller(Collect, 5, -1, 1, 1)])
        case _ => State(0, 0, [Vcpu(Guest, -1, false, 1, 5)], [Caller(Leave, 5, -1, 1, 1)])
    {
      Extend(Init(1), run, acts[i]);
      run, s := run + [acts[i]], Step(s, acts[i]);
    }
  }
}
