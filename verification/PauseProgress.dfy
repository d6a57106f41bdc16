/**
  When stopping the guest comes to an end: a vCPU that is still on its way out of the last pause does not hear the next
  one, and then the pause never completes.
 */
module PauseProgress {
  import opened PauseLock

  // ---------------------------------------------------------------- missing a pause

  /**
    The vCPU cannot notify in the round that is going on: it still waits for the mutex from an earlier one, or it has
    been signalled and nothing is left of that.
   */
  predicate Misses(st: State, v: nat)
    requires v < |st.vcpus|
  {
    && st.owner.ByPauser? && st.owner.p < |st.pausers|
    && var q, x := st.pausers[st.owner.p], st.vcpus[v];
    match q.pc
    case Opening => x.pc.Blocked?
    case Sending => !x.noted && (x.pc.Blocked? || (v < q.next && !x.signalled && (x.pc.Clear? || !x.paused)))
    case Reading => !x.noted && (x.pc.Blocked? || (!x.signalled && (x.pc.Clear? || !x.paused)))
    case _ => false
  }

  /** The pause takes the mutex while the vCPU waits for it, or the signal reaches it before it resets its flag. */
  predicate Deafens(st: State, a: Action, v: nat)
    requires v < |st.vcpus| && Enabled(st, a)
  {
    match a
    case Pause(p) => st.pausers[p].pc.WantLock? && st.vcpus[v].pc.Blocked?
    case Run(_, _) => false
    case Deliver(w) => w == v && st.vcpus[v].pc.Clear?
  }

  lemma PauseMisses(st: State, p: nat, v: nat)
    requires Inv(st) && PauseEnabled(st, p) && v < |st.vcpus|
    ensures |PauseStep(st, p).vcpus| == |st.vcpus|
    ensures Misses(PauseStep(st, p), v) <==> Misses(st, v) || Deafens(st, Pause(p), v)
  {
    var q := st.pausers[p];
    assert Owning(q.pc) <==> st.owner == ByPauser(p);
    assert Called(st, v);
    NotedBounds(st.vcpus);
  }

  lemma RunMisses(st: State, w: nat, io: bool, v: nat)
    requires Inv(st) && RunEnabled(st, w) && v < |st.vcpus|
    ensures |RunStep(st, w, io).vcpus| == |st.vcpus|
    ensures Misses(RunStep(st, w, io), v) <==> Misses(st, v)
  {
    assert Called(st, v) && Called(st, w);
    assert st.vcpus[w].pc.Inside? <==> st.owner == ByVcpu(w);
    if st.vcpus[w].pc.Notify? {
      NotifiesInTheOpen(st, w);
    }
    if st.owner.ByPauser? {
      assert Owning(st.pausers[st.owner.p].pc);
    }
  }

  /** Exactly such steps make a vCPU miss a pause, and nothing makes it hear that pause after all. */
  lemma MissesExact(st: State, a: Action, v: nat)
    requires Inv(st) && Enabled(st, a) && v < |st.vcpus|
    ensures |Step(st, a).vcpus| == |st.vcpus|
    ensures Misses(Step(st, a), v) <==> Misses(st, v) || Deafens(st, a, v)
  {
    match a
    case Pause(p) => PauseMisses(st, p, v);
    case Run(w, io) => RunMisses(st, w, io, v);
    case Deliver(w) =>
      assert Called(st, v) && Called(st, w);
      NotedBounds(st.vcpus);
  }

  // ---------------------------------------------------------------- a pause that hangs

  /** A vCPU that misses a pause misses it for good: on no run does that pause come to an end. */
  lemma {:induction false} MissedForGood(st: State, actions: seq<Action>, v: nat)
    requires Inv(st) && v < |st.vcpus| && Misses(st, v) && EnabledRun(st, actions)
    ensures
      var st' := RunAll(st, actions);
      v < |st'.vcpus| && Misses(st', v) && st'.owner == st.owner && !st'.pausers[st'.owner.p].pc.Holding?
    decreases |actions|
  {
    if actions != [] {
      StepInv(st, actions[0]);
      MissesExact(st, actions[0], v);
      OwnerStays(st, actions[0], v);
      MissedForGood(Step(st, actions[0]), actions[1..], v);
    }
  }

  lemma OwnerStays(st: State, a: Action, v: nat)
    requires Inv(st) && Enabled(st, a) && v < |st.vcpus| && Misses(st, v)
    ensures Step(st, a).owner == st.owner
  {
    var p := st.owner.p;
    assert Owning(st.pausers[p].pc) && !st.pausers[p].pc.Holding?;
    if a.Pause? {
      assert Owning(st.pausers[a.p].pc) <==> st.owner == ByPauser(a.p);
    } else if a.Run? {
      assert st.vcpus[a.v].pc.Inside? <==> st.owner == ByVcpu(a.v);
    }
  }

  // ---------------------------------------------------------------- a pause that completes

  /** A thread is pausing, and every vCPU can still notify. */
  ghost predicate Heard(st: State, p: nat)
  {
    && Inv(st) && p < |st.pausers| && st.owner == ByPauser(p) && !st.pausers[p].pc.Holding?
    && forall v :: 0 <= v < |st.vcpus| ==> !Misses(st, v)
  }

  /** How many of its own steps a vCPU is away from notifying, once it has been signalled. */
  function Distance(x: Vcpu): nat
  {
    if x.signalled then
      if x.pc.Clear? then 6 else if x.pc.Guest? || x.pc.Lookup? then 4 else if x.pc.Top? then 3 else 5
    else if x.pc.Guest? || x.pc.Lookup? then 3
    else if x.pc.Top? then 2
    else 1
  }

  lemma First(st: State, a: Action, rest: seq<Action>)
    requires Enabled(st, a) && EnabledRun(Step(st, a), rest)
    ensures EnabledRun(st, [a] + rest) && RunAll(st, [a] + rest) == RunAll(Step(st, a), rest)
  {
    assert ([a] + rest)[1..] == rest;
  }

  lemma {:induction false} Concat(st: State, a: seq<Action>, b: seq<Action>)
    requires EnabledRun(st, a) && EnabledRun(RunAll(st, a), b)
    ensures EnabledRun(st, a + b) && RunAll(st, a + b) == RunAll(RunAll(st, a), b)
    decreases |b|
  {
    if b == [] {
      assert a + b == a;
    } else {
      Extend(st, a, b[0]);
      assert a + b == a + [b[0]] + b[1..];
      Concat(st, a + [b[0]], b[1..]);
    }
  }

  /** The next thing that brings a signalled vCPU nearer to notifying. */
  lemma Nearer(st: State, p: nat, v: nat) returns (a: Action)
    requires Heard(st, p) && st.pausers[p].pc.Reading? && v < |st.vcpus| && !st.vcpus[v].noted
    ensures Enabled(st, a) && Heard(Step(st, a), p) && Step(st, a).pausers == st.pausers
    ensures |Step(st, a).vcpus| == |st.vcpus| && Step(st, a).vcpus == st.vcpus[v := Step(st, a).vcpus[v]]
    ensures Step(st, a).vcpus[v].noted || Distance(Step(st, a).vcpus[v]) < Distance(st.vcpus[v])
  {
    var x := st.vcpus[v];
    assert Called(st, v) && !Misses(st, v);
    assert x.pc.Inside? <==> st.owner == ByVcpu(v);
    a := if x.signalled && !x.pc.Clear? then Deliver(v) else Run(v, false);
    if x.pc.Notify? {
      NotifiesInTheOpen(st, v);
    }
    StepInv(st, a);
    forall w | 0 <= w < |st.vcpus| ensures |Step(st, a).vcpus| == |st.vcpus| && !Misses(Step(st, a), w) {
      MissesExact(st, a, w);
    }
  }

  /** A signalled vCPU can notify, with nothing else moving. */
  lemma {:induction false} CanNotify(st: State, p: nat, v: nat) returns (run: seq<Action>)
    requires Heard(st, p) && st.pausers[p].pc.Reading? && v < |st.vcpus| && !st.vcpus[v].noted
    ensures EnabledRun(st, run)
    ensures
      var st' := RunAll(st, run);
      && Heard(st', p) && st'.pausers == st.pausers && |st'.vcpus| == |st.vcpus|
      && st'.vcpus == st.vcpus[v := st'.vcpus[v]] && st'.vcpus[v].noted
    decreases Distance(st.vcpus[v])
  {
    var a := Nearer(st, p, v);
    run := [];
    if !Step(st, a).vcpus[v].noted {
      run := CanNotify(Step(st, a), p, v);
    }
    First(st, a, run);
    run := [a] + run;
  }

  /** The pausing thread can take its next step. */
  lemma PauserSteps(st: State, p: nat)
    requires Heard(st, p) && (st.pausers[p].pc.Reading? ==> Noted(st.vcpus) == |st.vcpus|)
    ensures Enabled(st, Pause(p)) && |Step(st, Pause(p)).vcpus| == |st.vcpus|
    ensures var st' := Step(st, Pause(p)); st'.pausers[p].pc.Holding? || Heard(st', p)
  {
    assert Owning(st.pausers[p].pc) <==> st.owner == ByPauser(p);
    StepInv(st, Pause(p));
    forall v | 0 <= v < |st.vcpus| ensures |Step(st, Pause(p)).vcpus| == |st.vcpus| && !Misses(Step(st, Pause(p)), v) {
      MissesExact(st, Pause(p), v);
    }
  }

  /** How many of its own steps the pausing thread has to go. */
  function Ahead(q: Pauser, n: nat): nat
  {
    match q.pc
    case Opening => n + 5
    case Sending => if q.next < n then n - q.next + 4 else 4
    case Reading => if q.total < n then 3 else 2
    case Closing => 1
    case _ => 0
  }

  lemma {:induction false} SomeUnnoted(vs: seq<Vcpu>) returns (v: nat)
    requires Noted(vs) < |vs|
    ensures v < |vs| && !vs[v].noted
  {
    v := 0;
    if vs[0].noted {
      var w := SomeUnnoted(vs[1..]);
      v := w + 1;
    }
  }

  /** Where every vCPU can still notify, the pause can come to an end. */
  lemma {:induction false} CanPause(st: State, p: nat) returns (run: seq<Action>)
    requires Heard(st, p)
    ensures EnabledRun(st, run) && p < |RunAll(st, run).pausers| && RunAll(st, run).pausers[p].pc.Holding?
    decreases Ahead(st.pausers[p], |st.vcpus|), |st.vcpus| - Noted(st.vcpus)
  {
    NotedBounds(st.vcpus);
    assert Owning(st.pausers[p].pc) <==> st.owner == ByPauser(p);
    if st.pausers[p].pc.Reading? && Noted(st.vcpus) < |st.vcpus| {
      var v := SomeUnnoted(st.vcpus);
      var first := CanNotify(st, p, v);
      var st' := RunAll(st, first);
      NotedUpdate(st.vcpus, v, st'.vcpus[v]);
      var rest := CanPause(st', p);
      Concat(st, first, rest);
      run := first + rest;
    } else {
      PauserSteps(st, p);
      var rest := [];
      if !Step(st, Pause(p)).pausers[p].pc.Holding? {
        rest := CanPause(Step(st, Pause(p)), p);
      }
      First(st, Pause(p), rest);
      run := [Pause(p)] + rest;
    }
  }

  /** The run leads to the thread holding the guest paused. */
  predicate HoldsAfter(st: State, run: seq<Action>, p: nat)
  {
    EnabledRun(st, run) && p < |RunAll(st, run).pausers| && RunAll(st, run).pausers[p].pc.Holding?
  }

  /** A pause that has the mutex can come to an end exactly when no vCPU has missed it. */
  lemma PauseExact(st: State, p: nat)
    requires Inv(st) && p < |st.pausers| && st.owner == ByPauser(p) && !st.pausers[p].pc.Holding?
    ensures (exists run :: HoldsAfter(st, run, p)) <==> forall v :: 0 <= v < |st.vcpus| ==> !Misses(st, v)
  {
    if v :| 0 <= v < |st.vcpus| && Misses(st, v) {
      forall run | EnabledRun(st, run) ensures !HoldsAfter(st, run, p) {
        MissedForGood(st, run, v);
      }
    } else {
      var run := CanPause(st, p);
      assert HoldsAfter(st, run, p);
    }
  }

  // ---------------------------------------------------------------- continuing

  /** Continuing lets go of the mutex, and every vCPU that waits for it may go on. */
  lemma ContinueReleases(st: State, p: nat)
    requires Inv(st) && p < |st.pausers| && st.pausers[p].pc.Holding?
    ensures Enabled(st, Pause(p))
    ensures
      var st' := Step(st, Pause(p));
      && Inv(st') && st'.owner.Nobody? && st'.pausers[p].pc.Idle? && |st'.vcpus| == |st.vcpus|
      && forall v :: 0 <= v < |st'.vcpus| ==> st'.vcpus[v].pc.Blocked? && Enabled(st', Run(v, false))
  {
    InvStopped(st);
    StepInv(st, Pause(p));
  }

  /** The vCPU runs guest code and has no pause to answer. */
  predicate Resumed(x: Vcpu) { x.pc.Guest? && !x.paused }

  function ToResume(x: Vcpu): nat
  {
    match x.pc
    case Blocked => 3
    case Inside => 2
    case Lookup => 2
    case Clear => 1
    case Top => 1
    case _ => 0
  }

  /** With the mutex free a vCPU can get back to the guest, with nothing else moving. */
  lemma {:induction false} CanReturn(st: State, v: nat) returns (run: seq<Action>)
    requires Inv(st) && v < |st.vcpus|
    requires st.owner.Nobody? || st.owner == ByVcpu(v)
    ensures EnabledRun(st, run)
    ensures
      var st' := RunAll(st, run);
      && Inv(st') && st'.owner.Nobody? && st'.pausers == st.pausers && |st'.vcpus| == |st.vcpus|
      && st'.vcpus == st.vcpus[v := st'.vcpus[v]] && Resumed(st'.vcpus[v])
    decreases ToResume(st.vcpus[v])
  {
    assert Called(st, v);
    assert st.vcpus[v].pc.Inside? <==> st.owner == ByVcpu(v);
    run := [];
    if !st.vcpus[v].pc.Guest? {
      StepInv(st, Run(v, false));
      run := CanReturn(Step(st, Run(v, false)), v);
      First(st, Run(v, false), run);
      run := [Run(v, false)] + run;
    }
  }

  /** So all of them can, from vCPU `n` on. */
  lemma {:induction false} CanResume(st: State, n: nat) returns (run: seq<Action>)
    requires Inv(st) && st.owner.Nobody? && n <= |st.vcpus|
    requires forall v :: 0 <= v < n ==> Resumed(st.vcpus[v])
    ensures EnabledRun(st, run)
    ensures
      var st' := RunAll(st, run);
      && Inv(st') && st'.owner.Nobody? && st'.pausers == st.pausers && |st'.vcpus| == |st.vcpus|
      && forall v :: 0 <= v < |st.vcpus| ==> Resumed(st'.vcpus[v])
    decreases |st.vcpus| - n
  {
    run := [];
    if n < |st.vcpus| {
      var first := CanReturn(st, n);
      var rest := CanResume(RunAll(st, first), n + 1);
      Concat(st, first, rest);
      run := first + rest;
    }
  }

  /** A vCPU in the guest may look something up at any time, and comes back to the top of its loop. */
  lemma LookupHappens(st: State, v: nat)
    requires Inv(st) && v < |st.vcpus| && st.vcpus[v].pc.Guest?
    ensures Enabled(st, Run(v, true)) && |Step(st, Run(v, true)).vcpus| == |st.vcpus|
    ensures
      var st' := Step(st, Run(v, true));
      && st'.vcpus[v].pc.Lookup? && Inv(st') && (forall p :: 0 <= p < |st'.pausers| ==> !st'.pausers[p].pc.Holding?)
      && Enabled(st', Run(v, false)) && v < |Step(st', Run(v, false)).vcpus|
      && Step(st', Run(v, false)).vcpus[v].pc.Top?
  {
    StepInv(st, Run(v, true));
    InvStopped(Step(st, Run(v, true)));
  }

  // ---------------------------------------------------------------- pausing again

  lemma {:induction false} SamePausers(st: State, actions: seq<Action>)
    requires EnabledRun(st, actions)
    ensures |RunAll(st, actions).pausers| == |st.pausers|
    decreases |actions|
  {
    if actions != [] {
      SamePausers(Step(st, actions[0]), actions[1..]);
    }
  }

  /** With the mutex free any thread can pause the guest, once the vCPUs are back in it. */
  lemma CanPauseFree(st: State, p: nat) returns (run: seq<Action>)
    requires Inv(st) && st.owner.Nobody? && p < |st.pausers|
    ensures EnabledRun(st, run) && p < |RunAll(st, run).pausers| && RunAll(st, run).pausers[p].pc.Holding?
  {
    run := CanResume(st, 0);
    var st1 := RunAll(st, run);
    assert Owning(st.pausers[p].pc) <==> st.owner == ByPauser(p);
    if st1.pausers[p].pc.Idle? {
      StepInv(st1, Pause(p));
      Extend(st, run, Pause(p));
      run, st1 := run + [Pause(p)], Step(st1, Pause(p));
    }
    StepInv(st1, Pause(p));
    Extend(st, run, Pause(p));
    run, st1 := run + [Pause(p)], Step(st1, Pause(p));
    var rest := CanPause(st1, p);
    Concat(st, run, rest);
    run := run + rest;
  }

  /**
    A pause can be ended, all vCPUs can get back to the guest, and then any thread can pause it again: `back` leads to
    the guest, `again` from there to the next pause.
   */
  lemma PauseCycle(st: State, p: nat, q: nat) returns (back: seq<Action>, again: seq<Action>)
    requires Inv(st) && p < |st.pausers| && st.pausers[p].pc.Holding? && q < |st.pausers|
    ensures EnabledRun(st, back) && EnabledRun(RunAll(st, back), again)
    ensures
      var st' := RunAll(st, back);
      && st'.owner.Nobody? && |st'.pausers| == |st.pausers| && st'.pausers[p].pc.Idle? && |st'.vcpus| == |st.vcpus|
      && forall v :: 0 <= v < |st.vcpus| ==> Resumed(st'.vcpus[v])
    ensures
      var st'' := RunAll(RunAll(st, back), again);
      q < |st''.pausers| && st''.pausers[q].pc.Holding?
  {
    ContinueReleases(st, p);
    var rest := CanResume(Step(st, Pause(p)), 0);
    First(st, Pause(p), rest);
    back := [Pause(p)] + rest;
    again := CanPauseFree(RunAll(st, back), q);
  }

  /** From the start, for any number of vCPUs and threads: a pause, the guest running again, a second pause. */
  lemma PauseTwice(vcpus: nat, pausers: nat, p: nat, q: nat)
    returns (first: seq<Action>, back: seq<Action>, again: seq<Action>)
    requires p < pausers && q < pausers
    ensures EnabledRun(Init(vcpus, pausers), first)
    ensures
      var st := RunAll(Init(vcpus, pausers), first);
      p < |st.pausers| && st.pausers[p].pc.Holding? && EnabledRun(st, back)
    ensures
      var st := RunAll(RunAll(Init(vcpus, pausers), first), back);
      && st.owner.Nobody? && (forall v :: 0 <= v < |st.vcpus| ==> Resumed(st.vcpus[v])) && EnabledRun(st, again)
      && q < |RunAll(st, again).pausers| && RunAll(st, again).pausers[q].pc.Holding?
  {
    InitInv(vcpus, pausers);
    first := CanPauseFree(Init(vcpus, pausers), p);
    PausedExcludesLookups(Init(vcpus, pausers), first);
    SamePausers(Init(vcpus, pausers), first);
    back, again := PauseCycle(RunAll(Init(vcpus, pausers), first), p, q);
  }

  /** Whoever has the mutex can let go of it, if no vCPU misses a pause. */
  lemma CanFree(st: State) returns (run: seq<Action>)
    requires Inv(st) && forall v :: 0 <= v < |st.vcpus| ==> !Misses(st, v)
    ensures EnabledRun(st, run)
    ensures var st' := RunAll(st, run); Inv(st') && st'.owner.Nobody? && |st'.pausers| == |st.pausers|
  {
    run := [];
    match st.owner
    case Nobody =>
    case ByVcpu(v) => run := CanReturn(st, v);
    case ByPauser(p) =>
      if !st.pausers[p].pc.Holding? {
        run := CanPause(st, p);
        PausedExcludesLookups(st, run);
        SamePausers(st, run);
      }
      ContinueReleases(RunAll(st, run), p);
      Extend(st, run, Pause(p));
      run := run + [Pause(p)];
  }

  /**
    In every reachable state and for every thread: the thread can still come to hold the guest paused exactly when no
    vCPU misses a pause that is going on.
   */
  lemma PausableExact(st: State, p: nat)
    requires Inv(st) && p < |st.pausers|
    ensures (exists run :: HoldsAfter(st, run, p)) <==> forall v :: 0 <= v < |st.vcpus| ==> !Misses(st, v)
  {
    if v :| 0 <= v < |st.vcpus| && Misses(st, v) {
      forall run | EnabledRun(st, run) ensures !HoldsAfter(st, run, p) {
        MissedForGood(st, run, v);
        PausedExcludesLookups(st, run);
        SamePausers(st, run);
      }
    } else {
      var run := CanFree(st);
      var rest := CanPauseFree(RunAll(st, run), p);
      Concat(st, run, rest);
      assert HoldsAfter(st, run + rest, p);
    }
  }

  // ---------------------------------------------------------------- runs

  ghost predicate NeverDeafens(st: State, actions: seq<Action>)
    requires EnabledRun(st, actions)
    decreases |actions|
  {
    actions == [] ||
    ((forall v :: 0 <= v < |st.vcpus| ==> !Deafens(st, actions[0], v)) &&
     NeverDeafens(Step(st, actions[0]), actions[1..]))
  }

  ghost predicate HeardAlong(st: State, actions: seq<Action>)
    requires EnabledRun(st, actions)
    decreases |actions|
  {
    (forall v :: 0 <= v < |st.vcpus| ==> !Misses(st, v)) &&
    (actions == [] || HeardAlong(Step(st, actions[0]), actions[1..]))
  }

  lemma HeardStep(st: State, a: Action)
    requires Inv(st) && Enabled(st, a) && forall v :: 0 <= v < |st.vcpus| ==> !Misses(st, v)
    ensures (forall v :: 0 <= v < |Step(st, a).vcpus| ==> !Misses(Step(st, a), v)) <==>
            (forall v :: 0 <= v < |st.vcpus| ==> !Deafens(st, a, v))
  {
    forall v | 0 <= v < |st.vcpus|
      ensures |Step(st, a).vcpus| == |st.vcpus| && (Misses(Step(st, a), v) <==> Deafens(st, a, v))
    {
      MissesExact(st, a, v);
    }
    if |st.vcpus| == 0 {
      assert |Step(st, a).vcpus| == 0;
    }
  }

  /**
    On every run every pause is heard by every vCPU exactly when no pause takes the mutex while a vCPU waits for it, and
    no signal reaches a vCPU that is about to reset its flag.
   */
  lemma {:induction false} HeardExact(st: State, actions: seq<Action>)
    requires Inv(st) && EnabledRun(st, actions) && forall v :: 0 <= v < |st.vcpus| ==> !Misses(st, v)
    ensures HeardAlong(st, actions) <==> NeverDeafens(st, actions)
    decreases |actions|
  {
    if actions != [] {
      StepInv(st, actions[0]);
      HeardStep(st, actions[0]);
      if forall v :: 0 <= v < |st.vcpus| ==> !Deafens(st, actions[0], v) {
        HeardExact(Step(st, actions[0]), actions[1..]);
      }
    }
  }

  /** That happens: a thread pauses, continues and pauses again before the vCPU has got the mutex, and hangs. */
  lemma PauseAgainHangs() returns (run: seq<Action>)
    ensures EnabledRun(Init(1, 1), run) && |RunAll(Init(1, 1), run).vcpus| == 1 && Misses(RunAll(Init(1, 1), run), 0)
    ensures forall more :: EnabledRun(Init(1, 1), run + more) ==>
              |RunAll(Init(1, 1), run + more).pausers| == 1 && !RunAll(Init(1, 1), run + more).pausers[0].pc.Holding?
  {
    run := PauseHappens();
    InitInv(1, 1);
    PausedExcludesLookups(Init(1, 1), run);
    var s := RunAll(Init(1, 1), run);
    for i := 0 to 3
      invariant EnabledRun(Init(1, 1), run) && RunAll(Init(1, 1), run) == s && Inv(s)
      invariant s == match i
        case 0 => State(ByPauser(0), false, 0, [Vcpu(Blocked, true, false, true)], [Pauser(Holding, 1, 1)], false)
        case 1 => State(Nobody, false, 0, [Vcpu(Blocked, true, false, true)], [Pauser(Idle, 0, 0)], false)
        case 2 => State(Nobody, false, 0, [Vcpu(Blocked, true, false, true)], [Pauser(WantLock, 0, 0)], false)
        case _ => State(ByPauser(0), false, 0, [Vcpu(Blocked, true, false, true)], [Pauser(Opening, 0, 0)], false)
    {
      StepInv(s, Pause(0));
      Extend(Init(1, 1), run, Pause(0));
      run, s := run + [Pause(0)], Step(s, Pause(0));
    }
    forall more | EnabledRun(Init(1, 1), run + more)
      ensures |RunAll(Init(1, 1), run + more).pausers| == 1 && !RunAll(Init(1, 1), run + more).pausers[0].pc.Holding?
    {
      Apart(Init(1, 1), run, more);
      MissedForGood(s, more, 0);
      SamePausers(s, more);
    }
  }

  /** A run that goes on after another. */
  lemma {:induction false} Apart(st: State, a: seq<Action>, b: seq<Action>)
    requires EnabledRun(st, a + b)
    ensures EnabledRun(st, a) && EnabledRun(RunAll(st, a), b) && RunAll(st, a + b) == RunAll(RunAll(st, a), b)
    decreases |a|
  {
    if a == [] {
      assert a + b == b;
    } else {
      assert (a + b)[0] == a[0] && (a + b)[1..] == a[1..] + b;
      Apart(Step(st, a[0]), a[1..], b);
    }
  }
}
