/**
  Stopping the guest: the lock that lets one thread change the I/O trees while every vCPU is held in its
  pause notification, under every interleaving.
 */
module PauseLock {

  datatype Owner = Nobody | ByPauser(p: nat) | ByVcpu(v: nat)

  /** Where a vCPU thread is in its run loop. */
  datatype VcpuPc =
    | Top       // about to test `paused`
    | Notify    // about to write the pause event
    | Blocked   // has notified, about to lock the pause mutex
    | Inside    // has the mutex, about to unlock it
    | Clear     // about to reset `paused`
    | Guest     // running guest code, or handling an exit that looks nothing up
    | Lookup    // inside a port or MMIO lookup

  /** `noted` records that the vCPU has notified since the event was created. */
  datatype Vcpu = Vcpu(pc: VcpuPc, paused: bool, signalled: bool, noted: bool)

  /** Where a thread is that pauses the guest. */
  datatype PauserPc =
    | Idle
    | WantLock  // about to lock the pause mutex
    | Opening   // about to create the event
    | Sending   // about to signal vCPU number `next`
    | Reading   // about to read the event
    | Closing   // about to close it
    | Holding   // kvm__pause has returned; trees may be changed until kvm__continue

  datatype Pauser = Pauser(pc: PauserPc, next: nat, total: nat)

  /** `died` records that a vCPU wrote to a closed event, which ends the program. */
  datatype State = State(owner: Owner, open: bool, counter: nat, vcpus: seq<Vcpu>, pausers: seq<Pauser>, died: bool)

  datatype Action =
    | Pause(p: nat)            // the pauser takes its next step
    | Run(v: nat, io: bool)    // the vCPU takes its next step; out of the guest, with or without a lookup
    | Deliver(v: nat)          // a pending signal reaches the vCPU

  // ---------------------------------------------------------------- steps

  function Unnoted(vs: seq<Vcpu>): (r: seq<Vcpu>)
    ensures |r| == |vs| && forall i :: 0 <= i < |vs| ==> r[i] == vs[i].(noted := false)
  {
    seq(|vs|, i requires 0 <= i < |vs| => vs[i].(noted := false))
  }

  predicate PauseEnabled(st: State, p: nat)
  {
    && p < |st.pausers|
    && (st.pausers[p].pc.WantLock? ==> st.owner.Nobody?)
    && (st.pausers[p].pc.Reading? && st.pausers[p].total < |st.vcpus| ==> st.counter > 0)
  }

  function PauseStep(st: State, p: nat): State
    requires PauseEnabled(st, p)
  {
    var q := st.pausers[p];
    match q.pc
    case Idle => st.(pausers := st.pausers[p := Pauser(WantLock, 0, 0)])
    case WantLock => st.(owner := ByPauser(p), pausers := st.pausers[p := Pauser(Opening, 0, 0)])
    case Opening =>
      st.(open := true, counter := 0, vcpus := Unnoted(st.vcpus), pausers := st.pausers[p := Pauser(Sending, 0, 0)])
    case Sending =>
      if q.next < |st.vcpus| then
        st.(vcpus := st.vcpus[q.next := st.vcpus[q.next].(signalled := true)],
            pausers := st.pausers[p := q.(next := q.next + 1)])
      else st.(pausers := st.pausers[p := q.(pc := Reading)])
    case Reading =>
      if q.total < |st.vcpus| then st.(counter := 0, pausers := st.pausers[p := q.(total := q.total + st.counter)])
      else st.(pausers := st.pausers[p := q.(pc := Closing)])
    case Closing => st.(open := false, pausers := st.pausers[p := q.(pc := Holding)])
    case Holding => st.(owner := Nobody, pausers := st.pausers[p := Pauser(Idle, 0, 0)])
  }

  predicate RunEnabled(st: State, v: nat)
  {
    v < |st.vcpus| && (st.vcpus[v].pc.Blocked? ==> st.owner.Nobody?)
  }

  function RunStep(st: State, v: nat, io: bool): State
    requires RunEnabled(st, v)
  {
    var x := st.vcpus[v];
    match x.pc
    case Top => st.(vcpus := st.vcpus[v := x.(pc := if x.paused then Notify else Guest)])
    case Notify =>
      if st.open then st.(counter := st.counter + 1, vcpus := st.vcpus[v := x.(pc := Blocked, noted := true)])
      else st.(died := true)
    case Blocked => st.(owner := ByVcpu(v), vcpus := st.vcpus[v := x.(pc := Inside)])
    case Inside => st.(owner := Nobody, vcpus := st.vcpus[v := x.(pc := Clear)])
    case Clear => st.(vcpus := st.vcpus[v := x.(pc := Guest, paused := false)])
    case Guest => st.(vcpus := st.vcpus[v := x.(pc := if io then Lookup else Top)])
    case Lookup => st.(vcpus := st.vcpus[v := x.(pc := Top)])
  }

  predicate Enabled(st: State, a: Action)
  {
    match a
    case Pause(p) => PauseEnabled(st, p)
    case Run(v, _) => RunEnabled(st, v)
    case Deliver(v) => v < |st.vcpus| && st.vcpus[v].signalled
  }

  function Step(st: State, a: Action): State
    requires Enabled(st, a)
  {
    match a
    case Pause(p) => PauseStep(st, p)
    case Run(v, io) => RunStep(st, v, io)
    case Deliver(v) => st.(vcpus := st.vcpus[v := st.vcpus[v].(paused := true, signalled := false)])
  }

  // ---------------------------------------------------------------- the invariant

  ghost function Noted(vs: seq<Vcpu>): nat
  {
    if vs == [] then 0 else (if vs[0].noted then 1 else 0) + Noted(vs[1..])
  }

  lemma {:induction false} NotedUpdate(vs: seq<Vcpu>, i: nat, x: Vcpu)
    requires i < |vs|
    ensures Noted(vs[i := x]) == Noted(vs) - (if vs[i].noted then 1 else 0) + (if x.noted then 1 else 0)
  {
    if i > 0 {
      NotedUpdate(vs[1..], i - 1, x);
      assert vs[i := x][1..] == vs[1..][i - 1 := x];
    } else {
      assert vs[i := x][1..] == vs[1..];
    }
  }

  lemma {:induction false} NotedBounds(vs: seq<Vcpu>)
    ensures Noted(vs) <= |vs|
    ensures Noted(vs) == |vs| ==> forall i :: 0 <= i < |vs| ==> vs[i].noted
    ensures (forall i :: 0 <= i < |vs| ==> !vs[i].noted) ==> Noted(vs) == 0
  {
    if vs != [] {
      NotedBounds(vs[1..]);
      assert forall i :: 0 < i < |vs| ==> vs[i] == vs[1..][i - 1];
    }
  }

  predicate Owning(pc: PauserPc) { pc.Opening? || pc.Sending? || pc.Reading? || pc.Closing? || pc.Holding? }

  /** The pause mutex belongs to whoever is between locking and unlocking it. */
  ghost predicate Owned(st: State)
  {
    && (forall p :: 0 <= p < |st.pausers| ==> (Owning(st.pausers[p].pc) <==> st.owner == ByPauser(p)))
    && (forall v :: 0 <= v < |st.vcpus| ==> (st.vcpus[v].pc.Inside? <==> st.owner == ByVcpu(v)))
    && (st.owner.ByPauser? ==> st.owner.p < |st.pausers|)
    && (st.owner.ByVcpu? ==> st.owner.v < |st.vcpus|)
    && (st.open ==> st.owner.ByPauser?)
  }

  /** In a round every notification is counted once, and whoever has notified is held at the mutex. */
  ghost predicate Round(st: State, q: Pauser)
  {
    && (q.pc.Opening? ==> !st.open)
    && (q.pc.Sending? || q.pc.Reading? || q.pc.Closing? || q.pc.Holding? ==>
          forall v :: 0 <= v < |st.vcpus| && st.vcpus[v].noted ==> st.vcpus[v].pc.Blocked?)
    && (q.pc.Sending? || q.pc.Reading? || q.pc.Closing? ==> st.open && st.counter + q.total == Noted(st.vcpus))
    && (q.pc.Closing? || q.pc.Holding? ==> Noted(st.vcpus) == |st.vcpus|)
    && (q.pc.Holding? ==> !st.open)
  }

  /** The vCPU has been sent the signal of the round that is going on. */
  predicate Asked(st: State, v: nat)
  {
    && st.owner.ByPauser? && st.owner.p < |st.pausers|
    && var q := st.pausers[st.owner.p];
    (q.pc.Sending? && v < q.next) || q.pc.Reading? || q.pc.Closing?
  }

  /** A vCPU is about to notify, or will be, only because this round asked it and it has not notified yet. */
  predicate Called(st: State, v: nat)
    requires v < |st.vcpus|
  {
    var x := st.vcpus[v];
    && (x.pc.Notify? ==> x.paused)
    && (x.signalled ==> Asked(st, v) && !x.noted)
    && (x.paused && !x.pc.Blocked? && !x.pc.Inside? && !x.pc.Clear? ==> Asked(st, v) && !x.signalled && !x.noted)
    && (x.noted && st.open ==> Asked(st, v))
  }

  ghost predicate Inv(st: State)
  {
    && Owned(st) && (st.owner.ByPauser? ==> Round(st, st.pausers[st.owner.p]))
    && !st.died && forall v :: 0 <= v < |st.vcpus| ==> Called(st, v)
  }

  lemma PauseCalled(st: State, p: nat, v: nat)
    requires Inv(st) && PauseEnabled(st, p) && v < |st.vcpus|
    ensures |PauseStep(st, p).vcpus| == |st.vcpus| && Called(PauseStep(st, p), v)
  {
    assert Called(st, v);
    assert Owning(st.pausers[p].pc) <==> st.owner == ByPauser(p);
    NotedBounds(st.vcpus);
  }

  lemma PauseInv(st: State, p: nat)
    requires Inv(st) && PauseEnabled(st, p)
    ensures Inv(PauseStep(st, p))
  {
    var q, st' := st.pausers[p], PauseStep(st, p);
    forall v | 0 <= v < |st.vcpus| ensures |st'.vcpus| == |st.vcpus| && Called(st', v) {
      PauseCalled(st, p, v);
    }
    NotedBounds(st.vcpus);
    NotedBounds(st'.vcpus);
    if q.pc.Sending? && q.next < |st.vcpus| {
      NotedUpdate(st.vcpus, q.next, st'.vcpus[q.next]);
    }
  }

  /** A vCPU writes the pause event only while it is open. */
  lemma NotifiesInTheOpen(st: State, v: nat)
    requires Inv(st) && v < |st.vcpus| && st.vcpus[v].pc.Notify?
    ensures st.open
  {
    assert Called(st, v);
    assert Round(st, st.pausers[st.owner.p]);
  }

  lemma RunCalled(st: State, v: nat, io: bool, w: nat)
    requires Inv(st) && RunEnabled(st, v) && w < |st.vcpus|
    ensures !RunStep(st, v, io).died && |RunStep(st, v, io).vcpus| == |st.vcpus| && Called(RunStep(st, v, io), w)
  {
    assert Called(st, w) && Called(st, v);
    assert st.vcpus[v].pc.Inside? <==> st.owner == ByVcpu(v);
    if st.vcpus[v].pc.Notify? {
      NotifiesInTheOpen(st, v);
    }
  }

  lemma RunRound(st: State, v: nat, io: bool)
    requires Inv(st) && RunEnabled(st, v)
    ensures var st' := RunStep(st, v, io); Owned(st') && (st'.owner.ByPauser? ==> Round(st', st'.pausers[st'.owner.p]))
  {
    var st' := RunStep(st, v, io);
    NotedUpdate(st.vcpus, v, st'.vcpus[v]);
    assert st'.vcpus == st.vcpus[v := st'.vcpus[v]];
    NotedBounds(st.vcpus);
    assert Called(st, v);
    if st.vcpus[v].pc.Notify? {
      NotifiesInTheOpen(st, v);
    }
    if st.owner.ByPauser? {
      assert Round(st, st.pausers[st.owner.p]);
      assert st.vcpus[v].pc.Inside? <==> st.owner == ByVcpu(v);
      assert Round(st', st'.pausers[st.owner.p]);
    }
  }

  lemma RunInv(st: State, v: nat, io: bool)
    requires Inv(st) && RunEnabled(st, v)
    ensures Inv(RunStep(st, v, io))
  {
    var st' := RunStep(st, v, io);
    forall w | 0 <= w < |st.vcpus| ensures !st'.died && |st'.vcpus| == |st.vcpus| && Called(st', w) {
      RunCalled(st, v, io, w);
    }
    RunCalled(st, v, io, v);
    RunRound(st, v, io);
  }

  lemma StepInv(st: State, a: Action)
    requires Inv(st) && Enabled(st, a)
    ensures Inv(Step(st, a))
  {
    if a.Pause? {
      PauseInv(st, a.p);
    } else if a.Run? {
      RunInv(st, a.v, a.io);
    } else {
      assert forall v :: 0 <= v < |st.vcpus| && Called(st, v) ==> Called(Step(st, a), v);
      NotedUpdate(st.vcpus, a.v, st.vcpus[a.v].(paused := true, signalled := false));
    }
  }

  // ---------------------------------------------------------------- every interleaving

  predicate EnabledRun(st: State, actions: seq<Action>)
    decreases |actions|
  {
    actions == [] || (Enabled(st, actions[0]) && EnabledRun(Step(st, actions[0]), actions[1..]))
  }

  function RunAll(st: State, actions: seq<Action>): State
    requires EnabledRun(st, actions)
    decreases |actions|
  {
    if actions == [] then st else RunAll(Step(st, actions[0]), actions[1..])
  }

  /** Whenever a thread holds the guest paused, every vCPU has notified in this round and is held at the mutex. */
  ghost predicate Stopped(st: State)
  {
    forall p :: 0 <= p < |st.pausers| && st.pausers[p].pc.Holding? ==>
      && st.owner == ByPauser(p)
      && (forall v :: 0 <= v < |st.vcpus| ==> st.vcpus[v].noted && st.vcpus[v].pc.Blocked?)
      && (forall q :: 0 <= q < |st.pausers| && q != p ==> !Owning(st.pausers[q].pc))
  }

  lemma InvStopped(st: State)
    requires Inv(st)
    ensures Stopped(st)
  {
    NotedBounds(st.vcpus);
  }

  /**
    In every interleaving no vCPU is inside a lookup while a thread may change the trees, only one thread may, and
    no vCPU ever notifies on a closed event.
   */
  lemma {:induction false} PausedExcludesLookups(st: State, actions: seq<Action>)
    requires Inv(st) && EnabledRun(st, actions)
    ensures Inv(RunAll(st, actions)) && Stopped(RunAll(st, actions)) && !RunAll(st, actions).died
    decreases |actions|
  {
    if actions == [] {
      InvStopped(st);
    } else {
      StepInv(st, actions[0]);
      PausedExcludesLookups(Step(st, actions[0]), actions[1..]);
    }
  }

  /** Once paused, the guest stays paused until the thread that paused it continues. */
  lemma StaysPaused(st: State, p: nat, a: Action)
    requires Inv(st) && Enabled(st, a) && p < |st.pausers| && st.pausers[p].pc.Holding? && a != Pause(p)
    ensures p < |Step(st, a).pausers| && Step(st, a).pausers[p].pc.Holding? && Step(st, a).owner == ByPauser(p)
    ensures forall v :: 0 <= v < |st.vcpus| ==> v < |Step(st, a).vcpus| && Step(st, a).vcpus[v].pc == st.vcpus[v].pc
  {
    InvStopped(st);
  }

  function Init(vcpus: nat, pausers: nat): State
  {
    State(Nobody, false, 0, seq(vcpus, _ => Vcpu(Top, false, false, false)), seq(pausers, _ => Pauser(Idle, 0, 0)),
          false)
  }

  lemma InitInv(vcpus: nat, pausers: nat)
    ensures Inv(Init(vcpus, pausers))
  {
  }

  lemma {:induction false} Extend(st: State, actions: seq<Action>, a: Action)
    requires EnabledRun(st, actions) && Enabled(RunAll(st, actions), a)
    ensures EnabledRun(st, actions + [a]) && RunAll(st, actions + [a]) == Step(RunAll(st, actions), a)
    decreases |actions|
  {
    if actions == [] {
      assert actions + [a] == [a] && [a][1..] == [];
    } else {
      Extend(Step(st, actions[0]), actions[1..], a);
      assert (actions + [a])[1..] == actions[1..] + [a];
    }
  }

  /** The first half: the mutex is taken, the event is open and every vCPU is signalled. */
  lemma SignallingHappens() returns (run: seq<Action>)
    ensures EnabledRun(Init(1, 1), run)
    ensures RunAll(Init(1, 1), run) ==
            State(ByPauser(0), true, 0, [Vcpu(Top, false, true, false)], [Pauser(Reading, 1, 0)], false)
  {
    run := [];
    var s := Init(1, 1);
    for i := 0 to 5
      invariant EnabledRun(Init(1, 1), run) && RunAll(Init(1, 1), run) == s
      invariant s == match i
        case 0 => State(Nobody, false, 0, [Vcpu(Top, false, false, false)], [Pauser(Idle, 0, 0)], false)
        case 1 => State(Nobody, false, 0, [Vcpu(Top, false, false, false)], [Pauser(WantLock, 0, 0)], false)
        case 2 => State(ByPauser(0), false, 0, [Vcpu(Top, false, false, false)], [Pauser(Opening, 0, 0)], false)
        case 3 => State(ByPauser(0), true, 0, [Vcpu(Top, false, false, false)], [Pauser(Sending, 0, 0)], false)
        case 4 => State(ByPauser(0), true, 0, [Vcpu(Top, false, true, false)], [Pauser(Sending, 1, 0)], false)
        case _ => State(ByPauser(0), true, 0, [Vcpu(Top, false, true, false)], [Pauser(Reading, 1, 0)], false)
    {
      Extend(Init(1, 1), run, Pause(0));
      run, s := run + [Pause(0)], Step(s, Pause(0));
    }
  }

  /** The guest can be paused at all: one vCPU, one thread, from the start. */
  lemma PauseHappens() returns (run: seq<Action>)
    ensures EnabledRun(Init(1, 1), run)
    ensures RunAll(Init(1, 1), run) ==
            State(ByPauser(0), false, 0, [Vcpu(Blocked, true, false, true)], [Pauser(Holding, 1, 1)], false)
  {
    run := SignallingHappens();
    var rest := [Deliver(0), Run(0, false), Run(0, false), Pause(0), Pause(0), Pause(0)];
    var s := RunAll(Init(1, 1), run);
    for i := 0 to 6
      invariant EnabledRun(Init(1, 1), run) && RunAll(Init(1, 1), run) == s
      invariant s == match i
        case 0 => State(ByPauser(0), true, 0, [Vcpu(Top, false, true, false)], [Pauser(Reading, 1, 0)], false)
        case 1 => State(ByPauser(0), true, 0, [Vcpu(Top, true, false, false)], [Pauser(Reading, 1, 0)], false)
        case 2 => State(ByPauser(0), true, 0, [Vcpu(Notify, true, false, false)], [Pauser(Reading, 1, 0)], false)
        case 3 => State(ByPauser(0), true, 1, [Vcpu(Blocked, true, false, true)], [Pauser(Reading, 1, 0)], false)
        case 4 => State(ByPauser(0), true, 0, [Vcpu(Blocked, true, false, true)], [Pauser(Reading, 1, 1)], false)
        case 5 => State(ByPauser(0), true, 0, [Vcpu(Blocked, true, false, true)], [Pauser(Closing, 1, 1)], false)
        case _ => State(ByPauser(0), false, 0, [Vcpu(Blocked, true, false, true)], [Pauser(Holding, 1, 1)], false)
    {
      Extend(Init(1, 1), run, rest[i]);
      run, s := run + [rest[i]], Step(s, rest[i]);
    }
  }
}
