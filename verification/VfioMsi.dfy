/**
  MSI-X of an assigned PCI device: what the guest asked for, what the host has installed, and that the two stay
  in step over every sequence of guest writes, whichever system calls fail.
 */
module VfioMsi {
  /** A vector: its route, its event descriptor, its mask bits, and whether an interrupt route is live. */
  datatype Entry = Entry(gsi: int, eventfd: int, virtMasked: bool, physMasked: bool, irqfd: bool)

  /**
    The shadow state: the vectors, the descriptors last prepared for installation, those installed in the host, the
    bits of the two states, whether INTx is a mode of the device, and whether it is still set up.
   */
  datatype Msis = Msis(entries: seq<Entry>, eventfds: seq<int>, triggers: seq<int>,
                       virtEnabled: bool, virtMasked: bool, physEnabled: bool, physEmpty: bool,
                       intx: bool, intxLive: bool)

  /** What the system calls of one guest write answer: installing all, installing one, and the three for a vector. */
  datatype Answers = Answers(multi: bool, refused: set<nat>, none: bool, newfd: int, route: int, irqfd: bool)

  predicate Wf(m: Msis) { |m.entries| == |m.eventfds| == |m.triggers| }

  /** The descriptor a vector should trigger. */
  function Wanted(e: Entry): int { if e.gsi >= 0 then e.eventfd else -1 }

  function AllWanted(es: seq<Entry>): (w: seq<int>)
    ensures |w| == |es| && forall i :: 0 <= i < |es| ==> w[i] == Wanted(es[i])
  {
    if es == [] then [] else [Wanted(es[0])] + AllWanted(es[1..])
  }

  predicate NoTrigger(fds: seq<int>) { forall k :: 0 <= k < |fds| ==> fds[k] < 0 }

  // ---------------------------------------------------------------- installing and removing

  /** INTx goes away for good when MSIs come. */
  function WithoutIntx(m: Msis): Msis { if m.intx then m.(intx := false, intxLive := false) else m }

  /** The first vector from `i` on that differs and is refused; the number of vectors if there is none. */
  function Stop(es: seq<Entry>, eventfds: seq<int>, i: nat, refused: set<nat>): (j: nat)
    requires i <= |es| == |eventfds|
    ensures i <= j <= |es|
    decreases |es| - i
  {
    if i == |es| || (Wanted(es[i]) != eventfds[i] && i in refused) then i else Stop(es, eventfds, i + 1, refused)
  }

  /** Some descriptors, with those wanted in place of others below `j` where the vectors differ. */
  function Merged(es: seq<Entry>, eventfds: seq<int>, fds: seq<int>, j: nat): (r: seq<int>)
    requires |es| == |eventfds| == |fds| && j <= |es|
    ensures |r| == |es|
  {
    if j == 0 then fds
    else
      var r, w := Merged(es, eventfds, fds, j - 1), Wanted(es[j - 1]);
      if w != eventfds[j - 1] then r[j - 1 := w] else r
  }

  lemma {:induction false} MergedAt(es: seq<Entry>, eventfds: seq<int>, fds: seq<int>, j: nat)
    requires |es| == |eventfds| == |fds| && j <= |es|
    ensures forall k :: 0 <= k < |es| ==>
              Merged(es, eventfds, fds, j)[k] == if k < j && Wanted(es[k]) != eventfds[k] then Wanted(es[k]) else fds[k]
  {
    if j != 0 {
      MergedAt(es, eventfds, fds, j - 1);
    }
  }

  /** Installs one by one the vectors that differ, up to the first one refused. */
  function InstallEach(m: Msis, refused: set<nat>): (r: (int, Msis))
    requires Wf(m)
    ensures Wf(r.1)
  {
    var j := Stop(m.entries, m.eventfds, 0, refused);
    (if j < |m.entries| then -1 else 0,
     m.(eventfds := Merged(m.entries, m.eventfds, m.eventfds, j),
        triggers := Merged(m.entries, m.eventfds, m.triggers, j)))
  }

  /** Installs all vectors at once. */
  function InstallAll(m: Msis, multi: bool): (r: (int, Msis))
    requires Wf(m)
    ensures Wf(r.1)
  {
    var fds := AllWanted(m.entries);
    if !multi then (-1, m.(eventfds := fds))
    else (0, m.(eventfds := fds, triggers := fds, physEnabled := true, physEmpty := NoTrigger(fds)))
  }

  function Enabled(m: Msis, a: Answers): (r: (int, Msis))
    requires Wf(m)
    ensures Wf(r.1)
  {
    if !m.virtEnabled then (0, m)
    else
      var m := WithoutIntx(m);
      if !m.physEnabled || (!m.virtMasked && m.physEmpty) then InstallAll(m, a.multi)
      else if m.virtMasked then (0, m)
      else InstallEach(m, a.refused)
  }

  function Disabled(m: Msis, a: Answers): (r: (int, Msis))
    requires Wf(m)
    ensures Wf(r.1)
  {
    if !m.physEnabled then (0, m)
    else if !a.none then (-1, m)
    else (0, m.(triggers := seq(|m.triggers|, _ => -1), physEnabled := false, physEmpty := true))
  }

  /** Gives a vector what it needs, and opens or closes its interrupt route to match its mask. */
  function Updated(e: Entry, a: Answers): (int, Entry)
  {
    var e := if e.eventfd < 0 then e.(eventfd := a.newfd) else e;
    if e.eventfd < 0 then (-1, e)
    else if e.gsi < 0 && a.route < 0 then (-1, e)
    else
      var e := if e.gsi < 0 then e.(gsi := a.route) else e;
      if e.virtMasked == e.physMasked then (0, e)
      else if e.physMasked && !a.irqfd then (-1, e)
      else (0, e.(irqfd := e.physMasked, physMasked := e.virtMasked))
  }

  // ---------------------------------------------------------------- guest writes

  datatype Write =
    | Vector(v: nat, masked: bool)        // the control word of a vector
    | Capability(enable: bool, masked: bool) // the flags of the capability

  /** What a write stores before it enables or disables; there is nothing to store beyond the table. */
  function Stored(m: Msis, w: Write, a: Answers): (m': Msis)
    requires Wf(m)
    ensures Wf(m')
  {
    match w
    case Vector(v, masked) =>
      if v < |m.entries| then m.(entries := m.entries[v := Updated(m.entries[v].(virtMasked := masked), a).1]) else m
    case Capability(enable, masked) => m.(virtMasked := masked, virtEnabled := enable)
  }

  function Next(m: Msis, w: Write, a: Answers): (m': Msis)
    requires Wf(m)
    ensures Wf(m')
  {
    if w.Vector? && |m.entries| <= w.v then m
    else if w.Capability? && !w.enable then Disabled(Stored(m, w, a), a).1
    else Enabled(Stored(m, w, a), a).1
  }

  function Initial(n: nat, intx: bool): Msis
  {
    Msis(seq(n, _ => Entry(-1, -1, true, true, false)), seq(n, _ => -1), seq(n, _ => -1), false, false, false, false,
         intx, intx)
  }

  // ---------------------------------------------------------------- what every write keeps

  /** A route is live exactly when the vector is not masked, and only over a descriptor and a route number. */
  predicate EntryInv(e: Entry)
  {
    && (e.physMasked <==> !e.irqfd) && (e.irqfd ==> e.gsi >= 0) && (e.gsi >= 0 ==> e.eventfd >= 0)
  }

  ghost predicate EntriesInv(es: seq<Entry>) { forall i :: 0 <= i < |es| ==> EntryInv(es[i]) }

  /** A vector that is installed keeps what is installed. */
  ghost predicate Kept(es: seq<Entry>, triggers: seq<int>)
    requires |es| == |triggers|
  {
    forall i :: 0 <= i < |es| ==> triggers[i] < 0 || triggers[i] == Wanted(es[i])
  }

  /** The physical state says what is installed, and INTx is gone once MSI-X is on. */
  ghost predicate Inv(m: Msis)
  {
    && Wf(m) && EntriesInv(m.entries) && Kept(m.entries, m.triggers)
    && (m.physEnabled ==> (m.physEmpty <==> NoTrigger(m.triggers)))
    && (m.physEnabled && !m.physEmpty ==> m.eventfds == m.triggers)
    && (m.intxLive <==> m.intx) && (m.physEnabled ==> !m.intx)
    && (!m.physEnabled ==> NoTrigger(m.triggers))
  }

  lemma InitialInv(n: nat, intx: bool)
    ensures Inv(Initial(n, intx))
  {
  }

  lemma UpdatedInv(e: Entry, masked: bool, a: Answers)
    requires EntryInv(e)
    ensures var e' := Updated(e.(virtMasked := masked), a).1;
            EntryInv(e') && (Wanted(e) >= 0 ==> Wanted(e') == Wanted(e))
  {
  }

  // ---------------------------------------------------------------- steps

  lemma InstallAllInv(m: Msis, multi: bool)
    requires Inv(m) && !m.intx && (m.physEnabled ==> m.physEmpty)
    ensures Inv(InstallAll(m, multi).1)
  {
  }

  lemma InstallEachInv(m: Msis, refused: set<nat>)
    requires Inv(m) && m.physEnabled && !m.physEmpty
    ensures Inv(InstallEach(m, refused).1)
  {
    var m', j := InstallEach(m, refused).1, Stop(m.entries, m.eventfds, 0, refused);
    MergedAt(m.entries, m.eventfds, m.eventfds, j);
    MergedAt(m.entries, m.eventfds, m.triggers, j);
    assert m'.eventfds == m'.triggers;
    var k :| 0 <= k < |m.triggers| && m.triggers[k] >= 0;
    assert m'.triggers[k] >= 0;
  }

  lemma EnabledInv(m: Msis, a: Answers)
    requires Inv(m)
    ensures Inv(Enabled(m, a).1)
  {
    if m.virtEnabled {
      var n := WithoutIntx(m);
      assert Inv(n);
      if !n.physEnabled || (!n.virtMasked && n.physEmpty) {
        InstallAllInv(n, a.multi);
      } else if !n.virtMasked {
        InstallEachInv(n, a.refused);
      }
    }
  }

  lemma DisabledInv(m: Msis, a: Answers)
    requires Inv(m)
    ensures Inv(Disabled(m, a).1)
  {
  }

  lemma StoredInv(m: Msis, w: Write, a: Answers)
    requires Inv(m)
    ensures Inv(Stored(m, w, a))
  {
    if w.Vector? && w.v < |m.entries| {
      UpdatedInv(m.entries[w.v], w.masked, a);
      var n := Stored(m, w, a);
      assert EntriesInv(n.entries) && Kept(n.entries, n.triggers);
    }
  }

  lemma NextInv(m: Msis, w: Write, a: Answers)
    requires Inv(m)
    ensures Inv(Next(m, w, a))
  {
    StoredInv(m, w, a);
    EnabledInv(Stored(m, w, a), a);
    DisabledInv(Stored(m, w, a), a);
  }

  /** The state after a sequence of writes and the answers to each. */
  ghost function After(m: Msis, ws: seq<(Write, Answers)>): (m': Msis)
    requires Wf(m)
    ensures Wf(m')
    decreases |ws|
  {
    if ws == [] then m else After(Next(m, ws[0].0, ws[0].1), ws[1..])
  }

  /** Whatever the guest writes and whichever calls fail, the states stay in step. */
  lemma {:induction false} RunInv(m: Msis, ws: seq<(Write, Answers)>)
    requires Inv(m)
    ensures Inv(After(m, ws))
    decreases |ws|
  {
    if ws != [] {
      NextInv(m, ws[0].0, ws[0].1);
      RunInv(Next(m, ws[0].0, ws[0].1), ws[1..]);
    }
  }

  /** An enable that succeeds while the guest has MSI-X enabled and unmasked installs exactly what is wanted. */
  lemma EnabledInstalls(m: Msis, a: Answers)
    requires Inv(m) && m.virtEnabled && !m.virtMasked
    ensures
      var (ret, m') := Enabled(m, a);
      ret == 0 ==>
        && m'.physEnabled && m'.entries == m.entries
        && forall i :: 0 <= i < |m.entries| ==>
             m'.triggers[i] == (if m.entries[i].gsi >= 0 then m.entries[i].eventfd else -1)
  {
    var n := WithoutIntx(m);
    if n.physEnabled && !n.physEmpty {
      assert n.eventfds == n.triggers;
      MergedAt(n.entries, n.eventfds, n.triggers, Stop(n.entries, n.eventfds, 0, a.refused));
    }
  }

  // ---------------------------------------------------------------- the prepared descriptors

  /** What was prepared is what is installed. */
  predicate InStep(m: Msis) { m.physEnabled ==> m.eventfds == m.triggers }

  /** Installing all at once is refused, on an enabled capability that is still empty and lacks a vector. */
  predicate Stales(m: Msis, a: Answers)
    requires Wf(m)
  {
    && m.virtEnabled && !m.virtMasked && m.physEnabled && m.physEmpty && !a.multi && AllWanted(m.entries) != m.triggers
  }

  /** One enable takes the prepared descriptors out of step in that case only. */
  lemma EnabledExact(m: Msis, a: Answers)
    requires Inv(m) && InStep(m)
    ensures InStep(Enabled(m, a).1) <==> !Stales(m, a)
  {
    if m.virtEnabled {
      var n := WithoutIntx(m);
      if n.physEnabled && !n.physEmpty && !n.virtMasked {
        assert n.eventfds == n.triggers;
      }
    }
  }

  /** The write enables in that case; one beyond the table enables nothing. */
  predicate WriteStales(m: Msis, w: Write, a: Answers)
    requires Wf(m)
  {
    Stales(Stored(m, w, a), a) && (w.Vector? ==> w.v < |m.entries|)
  }

  /** A write of the guest takes them out of step exactly then. */
  lemma InStepExact(m: Msis, w: Write, a: Answers)
    requires Inv(m) && InStep(m)
    ensures InStep(Next(m, w, a)) <==> !WriteStales(m, w, a)
  {
    StoredInv(m, w, a);
    EnabledExact(Stored(m, w, a), a);
  }

  ghost predicate NeverStales(m: Msis, ws: seq<(Write, Answers)>)
    requires Wf(m)
    decreases |ws|
  {
    ws == [] || (!WriteStales(m, ws[0].0, ws[0].1) && NeverStales(Next(m, ws[0].0, ws[0].1), ws[1..]))
  }

  ghost predicate InStepAlong(m: Msis, ws: seq<(Write, Answers)>)
    requires Wf(m)
    decreases |ws|
  {
    InStep(m) && (ws == [] || InStepAlong(Next(m, ws[0].0, ws[0].1), ws[1..]))
  }

  /** What was prepared is what is installed all along a run exactly when no write of the run is such. */
  lemma {:induction false} RunInStepExact(m: Msis, ws: seq<(Write, Answers)>)
    requires Inv(m) && InStep(m)
    ensures InStepAlong(m, ws) <==> NeverStales(m, ws)
    decreases |ws|
  {
    if ws != [] {
      var (w, a) := ws[0];
      NextInv(m, w, a);
      InStepExact(m, w, a);
      if InStep(Next(m, w, a)) {
        RunInStepExact(Next(m, w, a), ws[1..]);
      }
    }
  }

  /** As long as installing all at once never fails, what was prepared is what is installed. */
  lemma {:induction false} RunInStep(m: Msis, ws: seq<(Write, Answers)>)
    requires Inv(m) && InStep(m) && forall k :: 0 <= k < |ws| ==> ws[k].1.multi
    ensures InStep(After(m, ws))
    decreases |ws|
  {
    if ws != [] {
      NextInv(m, ws[0].0, ws[0].1);
      InStepExact(m, ws[0].0, ws[0].1);
      RunInStep(Next(m, ws[0].0, ws[0].1), ws[1..]);
    }
  }

  /**
    That happens from the start: the guest enables MSI-X masked, writes a vector, and unmasks while the host
    refuses. The next write tries all of them again.
   */
  lemma RefusalLeavesStale()
    ensures
      var a := Answers(true, {}, true, 7, 5, true);
      var m := After(Initial(1, false), [(Capability(true, true), a), (Vector(0, true), a)]);
      var m' := Next(m, Capability(true, false), a.(multi := false));
      Inv(m) && InStep(m) && !InStep(m') && Next(m', Capability(true, false), a).triggers == [7]
  {
    var a := Answers(true, {}, true, 7, 5, true);
    var ws := [(Capability(true, true), a), (Vector(0, true), a)];
    var start := Initial(1, false);
    InitialInv(1, false);
    RunInv(start, ws);
    var e := Entry(5, 7, true, true, false);
    var m1 := Msis([Entry(-1, -1, true, true, false)], [-1], [-1], true, true, true, true, false, false);
    var m2 := m1.(entries := [e]);
    assert AllWanted(m1.entries) == [-1] && AllWanted([e]) == [7];
    assert Next(start, ws[0].0, a) == m1;
    assert Next(m1, ws[1].0, a) == m2;
    assert ws[1..] == [(Vector(0, true), a)] && ws[1..][1..] == [];
    assert After(start, ws) == After(m1, ws[1..]) == After(m2, []) == m2;
  }

  // ---------------------------------------------------------------- the device

  class Device {
    const entries: array<Entry>
    const eventfds: array<int>
    var triggers: seq<int>
    var virtEnabled: bool
    var virtMasked: bool
    var physEnabled: bool
    var physEmpty: bool
    var intx: bool
    var intxLive: bool

    ghost predicate Valid()
      reads this, entries, eventfds
    {
      Wf(View())
    }

    ghost function View(): Msis
      reads this, entries, eventfds
    {
      Msis(entries[..], eventfds[..], triggers, virtEnabled, virtMasked, physEnabled, physEmpty, intx, intxLive)
    }

    constructor (n: nat, intx: bool)
      ensures Valid() && View() == Initial(n, intx) && fresh(entries) && fresh(eventfds)
    {
      entries, eventfds := new Entry[n](_ => Entry(-1, -1, true, true, false)), new int[n](_ => -1);
      triggers := seq(n, _ => -1);
      virtEnabled, virtMasked, physEnabled, physEmpty := false, false, false, false;
      this.intx, intxLive := intx, intx;
    }

    method DisableIntx()
      modifies this`intxLive
      ensures !intxLive
    {
      intxLive := false;
    }

    /** Registers the full range. */
    method InstallRange(multi: bool) returns (ret: int)
      requires Valid()
      modifies this`triggers, this`physEnabled, this`physEmpty, eventfds
      ensures Valid() && (ret, View()) == InstallAll(old(View()), multi)
    {
      ghost var es := entries[..];
      var empty := true;
      for i := 0 to entries.Length
        invariant triggers == old(triggers) && physEnabled == old(physEnabled) && physEmpty == old(physEmpty)
        invariant forall k :: 0 <= k < i ==> eventfds[k] == Wanted(es[k])
        invariant empty <==> forall k :: 0 <= k < i ==> eventfds[k] < 0
      {
        eventfds[i] := if entries[i].gsi >= 0 then entries[i].eventfd else -1;
        if eventfds[i] >= 0 {
          empty := false;
        }
      }
      assert eventfds[..] == AllWanted(es);
      assert empty == NoTrigger(eventfds[..]);
      if !multi {
        return -1;
      }
      triggers := eventfds[..];
      physEnabled, physEmpty := true, empty;
      return 0;
    }

    /** Registers one vector if it differs and is not refused. */
    method InstallVector(i: nat, refused: set<nat>) returns (ok: bool)
      requires i < entries.Length == eventfds.Length == |triggers|
      modifies this`triggers, this`physEmpty, eventfds
      ensures ok <==> !(Wanted(entries[i]) != old(eventfds[i]) && i in refused)
      ensures var w := Wanted(entries[i]);
              if ok && w != old(eventfds[i]) then
                eventfds[..] == old(eventfds[..])[i := w] && triggers == old(triggers)[i := w] &&
                physEmpty == (old(physEmpty) && w < 0)
              else
                eventfds[..] == old(eventfds[..]) && triggers == old(triggers) && physEmpty == old(physEmpty)
    {
      var fd := if entries[i].gsi >= 0 then entries[i].eventfd else -1;
      if fd == eventfds[i] {
        return true;
      }
      if i in refused {
        return false;
      }
      triggers := triggers[i := fd];
      eventfds[i] := fd;
      if physEmpty && fd >= 0 {
        physEmpty := false;
      }
      return true;
    }

    /** Registers the vectors that differ, one by one. */
    method InstallSingly(refused: set<nat>) returns (ret: int)
      requires Valid() && !physEmpty
      modifies this`triggers, this`physEmpty, eventfds
      ensures Valid() && (ret, View()) == InstallEach(old(View()), refused)
    {
      ghost var m := View();
      ghost var j := Stop(m.entries, m.eventfds, 0, refused);
      for i := 0 to entries.Length
        invariant entries[..] == m.entries && |triggers| == entries.Length && i <= j && !physEmpty
        invariant Stop(m.entries, m.eventfds, i, refused) == j
        invariant eventfds[..] == Merged(m.entries, m.eventfds, m.eventfds, i)
        invariant triggers == Merged(m.entries, m.eventfds, m.triggers, i)
      {
        MergedAt(m.entries, m.eventfds, m.eventfds, i);
        assert eventfds[i] == eventfds[..][i] == m.eventfds[i] && entries[i] == m.entries[i];
        var ok := InstallVector(i, refused);
        if !ok {
          return -1;
        }
      }
      return 0;
    }

    method EnableMsis(a: Answers) returns (ret: int)
      requires Valid()
      modifies this`triggers, this`physEnabled, this`physEmpty, this`intx, this`intxLive, eventfds
      ensures Valid() && (ret, View()) == Enabled(old(View()), a)
    {
      if !virtEnabled {
        return 0;
      }
      if intx {
        DisableIntx();
        intx := false;
      }
      assert View() == WithoutIntx(old(View()));
      if !physEnabled || (!virtMasked && physEmpty) {
        ret := InstallRange(a.multi);
        return;
      }
      if virtMasked {
        return 0;
      }
      ret := InstallSingly(a.refused);
    }

    method DisableMsis(a: Answers) returns (ret: int)
      requires Valid()
      modifies this`triggers, this`physEnabled, this`physEmpty
      ensures Valid() && (ret, View()) == Disabled(old(View()), a)
    {
      if !physEnabled {
        return 0;
      }
      if !a.none {
        return -1;
      }
      triggers := seq(|triggers|, _ => -1);
      physEnabled, physEmpty := false, true;
      return 0;
    }

    static method UpdateEntry(entry: Entry, a: Answers) returns (ret: int, e: Entry)
      ensures (ret, e) == Updated(entry, a)
    {
      e := entry;
      if e.eventfd < 0 {
        e := e.(eventfd := a.newfd);
        if e.eventfd < 0 {
          return -1, e;
        }
      }
      if e.gsi < 0 {
        if a.route < 0 {
          return -1, e;
        }
        e := e.(gsi := a.route);
      }
      if e.virtMasked == e.physMasked {
        return 0, e;
      }
      if e.physMasked && !a.irqfd {
        return -1, e;
      }
      return 0, e.(irqfd := e.physMasked, physMasked := e.virtMasked);
    }

    method UpdateMsiEntry(v: nat, a: Answers) returns (ret: int)
      requires Valid() && v < entries.Length
      modifies entries
      ensures Valid() && View() == old(View()).(entries := old(entries[..])[v := Updated(old(entries[v]), a).1])
      ensures ret == Updated(old(entries[v]), a).0
    {
      var e;
      ret, e := UpdateEntry(entries[v], a);
      entries[v] := e;
    }

    /** The guest writes the control word of a vector. */
    method TableWrite(v: nat, masked: bool, a: Answers)
      requires Valid() && v < entries.Length
      modifies this, entries, eventfds
      ensures Valid() && View() == Next(old(View()), Vector(v, masked), a)
    {
      ghost var m := View();
      var e := entries[v].(virtMasked := masked);
      entries[v] := e;
      assert View() == m.(entries := m.entries[v := e]);
      var updated := UpdateMsiEntry(v, a);
      assert m.entries[v := e][v := Updated(e, a).1] == m.entries[v := Updated(e, a).1];
      assert View() == Stored(m, Vector(v, masked), a);
      var enabled := EnableMsis(a);
    }

    /** The guest writes the flags of the capability. */
    method CapWrite(enable: bool, masked: bool, a: Answers)
      requires Valid()
      modifies this, eventfds
      ensures Valid() && View() == Next(old(View()), Capability(enable, masked), a)
    {
      virtMasked := masked;
      virtEnabled := enable;
      if enable {
        var ret := EnableMsis(a);
      } else {
        var ret := DisableMsis(a);
      }
    }
  }
}
