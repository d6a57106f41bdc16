/**
  What MSI-X of an assigned device is for: an interrupt of the device reaches the guest exactly when the guest has
  unmasked its vector.
 */
module VfioRoutes {
  import opened VfioMsi

  // ---------------------------------------------------------------- one vector

  /** A call that updating a vector needs fails. */
  predicate Fails(e: Entry, masked: bool, a: Answers)
  {
    || (e.eventfd < 0 && a.newfd < 0)
    || (e.gsi < 0 && a.route < 0)
    || (!masked && e.physMasked && !a.irqfd)
  }

  /** The route of the vector is live exactly when the guest has it unmasked. */
  predicate Follows(e: Entry) { e.irqfd <==> !e.virtMasked }

  /** An update reports a failure exactly when a call it needs fails; else the route follows the mask. */
  lemma UpdatedExact(e: Entry, masked: bool, a: Answers)
    requires EntryInv(e)
    ensures
      var (ret, e') := Updated(e.(virtMasked := masked), a);
      && e'.virtMasked == masked && (ret == 0 <==> !Fails(e, masked, a))
      && (ret == 0 ==> Follows(e') && e'.gsi >= 0 && e'.eventfd >= 0)
      && (ret != 0 ==> e'.irqfd == e.irqfd)
      && (e.gsi >= 0 ==> e'.gsi == e.gsi) && (e.eventfd >= 0 ==> e'.eventfd == e.eventfd)
  {
  }

  /** Enabling and disabling leave the vectors and what the guest wrote alone. */
  lemma EnabledKeeps(m: Msis, a: Answers)
    requires Wf(m)
    ensures
      var m' := Enabled(m, a).1;
      m'.entries == m.entries && m'.virtEnabled == m.virtEnabled && m'.virtMasked == m.virtMasked
  {
  }

  lemma DisabledKeeps(m: Msis, a: Answers)
    requires Wf(m)
    ensures
      var m' := Disabled(m, a).1;
      m'.entries == m.entries && m'.virtEnabled == m.virtEnabled && m'.virtMasked == m.virtMasked
  {
  }

  lemma NextEntries(m: Msis, w: Write, a: Answers)
    requires Wf(m)
    ensures Next(m, w, a).entries == Stored(m, w, a).entries && |Next(m, w, a).entries| == |m.entries|
    ensures Next(m, w, a).virtEnabled == if w.Capability? then w.enable else m.virtEnabled
    ensures Next(m, w, a).virtMasked == if w.Capability? then w.masked else m.virtMasked
  {
    EnabledKeeps(Stored(m, w, a), a);
    DisabledKeeps(Stored(m, w, a), a);
  }

  /** The write is to the vector, fails, and wants the route otherwise than it is. */
  predicate Breaks(m: Msis, w: Write, a: Answers, v: nat)
    requires v < |m.entries|
  {
    w.Vector? && w.v == v && Fails(m.entries[v], w.masked, a) && m.entries[v].irqfd == w.masked
  }

  /** After a write the route of a vector follows its mask, unless the write breaks that or does not touch it. */
  lemma FollowsExact(m: Msis, w: Write, a: Answers, v: nat)
    requires Inv(m) && v < |m.entries|
    ensures |Next(m, w, a).entries| == |m.entries|
    ensures Follows(Next(m, w, a).entries[v]) <==>
            if w.Vector? && w.v == v then !Breaks(m, w, a, v) else Follows(m.entries[v])
  {
    NextEntries(m, w, a);
    if w.Vector? && w.v == v {
      UpdatedExact(m.entries[v], w.masked, a);
    }
  }

  ghost predicate NeverBreaks(m: Msis, ws: seq<(Write, Answers)>, v: nat)
    requires Inv(m) && v < |m.entries|
    decreases |ws|
  {
    ws == [] ||
    (!Breaks(m, ws[0].0, ws[0].1, v) &&
     (NextInv(m, ws[0].0, ws[0].1);
      NextEntries(m, ws[0].0, ws[0].1);
      NeverBreaks(Next(m, ws[0].0, ws[0].1), ws[1..], v)))
  }

  ghost predicate FollowsAlong(m: Msis, ws: seq<(Write, Answers)>, v: nat)
    requires Wf(m) && v < |m.entries|
    decreases |ws|
  {
    Follows(m.entries[v]) &&
    (ws == [] || (NextEntries(m, ws[0].0, ws[0].1); FollowsAlong(Next(m, ws[0].0, ws[0].1), ws[1..], v)))
  }

  /** All along a run the route of a vector follows its mask exactly when no write of the run breaks that. */
  lemma {:induction false} RunFollowsExact(m: Msis, ws: seq<(Write, Answers)>, v: nat)
    requires Inv(m) && v < |m.entries| && Follows(m.entries[v])
    ensures FollowsAlong(m, ws, v) <==> NeverBreaks(m, ws, v)
    decreases |ws|
  {
    if ws != [] {
      var (w, a) := ws[0];
      NextInv(m, w, a);
      FollowsExact(m, w, a, v);
      if Follows(Next(m, w, a).entries[v]) {
        RunFollowsExact(Next(m, w, a), ws[1..], v);
      }
    }
  }

  // ---------------------------------------------------------------- the whole way

  /** A disable that succeeds leaves nothing installed, and one that fails leaves everything. */
  lemma DisabledExact(m: Msis, a: Answers)
    requires Inv(m)
    ensures
      var (ret, m') := Disabled(m, a);
      && (ret == 0 <==> !m.physEnabled || a.none) && m'.entries == m.entries
      && (ret == 0 ==> !m'.physEnabled && NoTrigger(m'.triggers)) && (ret != 0 ==> m' == m)
  {
  }

  predicate Succeed(a: Answers)
  {
    a.multi && a.refused == {} && a.none && a.newfd >= 0 && a.route >= 0 && a.irqfd
  }

  /** An interrupt of the device triggers the descriptor of its vector, and that has a live route into the guest. */
  predicate Reaches(m: Msis, v: nat)
    requires Wf(m) && v < |m.entries|
  {
    m.physEnabled && m.triggers[v] >= 0 && m.triggers[v] == m.entries[v].eventfd && m.entries[v].irqfd
  }

  /** What the guest asked for is what the host has. */
  ghost predicate Settled(m: Msis)
  {
    && Inv(m) && m.physEnabled == m.virtEnabled
    && (forall v :: 0 <= v < |m.entries| ==> Follows(m.entries[v]))
    && (m.virtEnabled && !m.virtMasked ==> m.triggers == AllWanted(m.entries))
  }

  lemma {:induction false} NeverStops(es: seq<Entry>, eventfds: seq<int>, i: nat)
    requires i <= |es| == |eventfds|
    ensures Stop(es, eventfds, i, {}) == |es|
    decreases |es| - i
  {
    if i < |es| {
      NeverStops(es, eventfds, i + 1);
    }
  }

  /** An enable that succeeds settles everything. */
  lemma EnabledSettles(m: Msis, a: Answers)
    requires Inv(m) && Succeed(a) && (m.physEnabled ==> m.virtEnabled)
    ensures
      var (ret, m') := Enabled(m, a);
      && ret == 0 && m'.physEnabled == m'.virtEnabled == m.virtEnabled && m'.virtMasked == m.virtMasked
      && (m.virtEnabled && !m.virtMasked ==> m'.triggers == AllWanted(m.entries))
  {
    NeverStops(m.entries, m.eventfds, 0);
    if m.virtEnabled && !m.virtMasked {
      EnabledInstalls(m, a);
    }
  }

  lemma NextSettled(m: Msis, w: Write, a: Answers)
    requires Settled(m) && Succeed(a)
    ensures Settled(Next(m, w, a))
  {
    NextInv(m, w, a);
    StoredInv(m, w, a);
    NextEntries(m, w, a);
    var n, m' := Stored(m, w, a), Next(m, w, a);
    forall v | 0 <= v < |m'.entries| ensures Follows(m'.entries[v]) {
      FollowsExact(m, w, a, v);
    }
    if w.Capability? && !w.enable {
      DisabledExact(n, a);
    } else if w.Capability? || w.v < |m.entries| {
      EnabledSettles(n, a);
    }
  }

  /** The mask that the guest last wrote to a vector; it begins masked. */
  function LastMask(ws: seq<(Write, Answers)>, v: nat): bool
  {
    if ws == [] then true
    else
      var w := ws[|ws| - 1].0;
      if w.Vector? && w.v == v then w.masked else LastMask(ws[..|ws| - 1], v)
  }

  /** The flags that it last wrote to the capability; that begins disabled. */
  function LastFlags(ws: seq<(Write, Answers)>): (bool, bool)
  {
    if ws == [] then (false, false)
    else
      var w := ws[|ws| - 1].0;
      if w.Capability? then (w.enable, w.masked) else LastFlags(ws[..|ws| - 1])
  }

  lemma {:induction false} AfterAppend(m: Msis, ws: seq<(Write, Answers)>, w: Write, a: Answers)
    requires Wf(m)
    ensures After(m, ws + [(w, a)]) == Next(After(m, ws), w, a)
    decreases |ws|
  {
    if ws == [] {
      assert ws + [(w, a)] == [(w, a)] && [(w, a)][1..] == [];
    } else {
      AfterAppend(Next(m, ws[0].0, ws[0].1), ws[1..], w, a);
      assert (ws + [(w, a)])[1..] == ws[1..] + [(w, a)];
    }
  }

  /** After any run in which every call succeeds, everything is as the last writes asked for. */
  lemma {:induction false} RunSettled(n: nat, intx: bool, ws: seq<(Write, Answers)>)
    requires forall k :: 0 <= k < |ws| ==> Succeed(ws[k].1)
    ensures
      var m := After(Initial(n, intx), ws);
      && Settled(m) && |m.entries| == n && (m.virtEnabled, m.virtMasked) == LastFlags(ws)
      && forall v :: 0 <= v < n ==> m.entries[v].virtMasked == LastMask(ws, v)
    decreases |ws|
  {
    InitialInv(n, intx);
    if ws != [] {
      var before, last := ws[..|ws| - 1], ws[|ws| - 1];
      assert ws == before + [last] && last == (last.0, last.1);
      RunSettled(n, intx, before);
      var m := After(Initial(n, intx), before);
      AfterAppend(Initial(n, intx), before, last.0, last.1);
      NextSettled(m, last.0, last.1);
      NextEntries(m, last.0, last.1);
      NextMasks(m, last.0, last.1);
    }
  }

  lemma NextMasks(m: Msis, w: Write, a: Answers)
    requires Inv(m)
    ensures
      var m' := Next(m, w, a);
      && |m'.entries| == |m.entries|
      && forall v :: 0 <= v < |m.entries| ==>
           m'.entries[v].virtMasked == if w.Vector? && w.v == v then w.masked else m.entries[v].virtMasked
  {
    NextEntries(m, w, a);
    if w.Vector? && w.v < |m.entries| {
      UpdatedExact(m.entries[w.v], w.masked, a);
    }
  }

  /**
    After any run of writes in which every call succeeds: with MSI-X enabled and unmasked, an interrupt of the device
    reaches the guest exactly when the last write to its vector unmasked it; with MSI-X disabled, none does.
   */
  lemma RunReaches(n: nat, intx: bool, ws: seq<(Write, Answers)>, v: nat)
    requires v < n && forall k :: 0 <= k < |ws| ==> Succeed(ws[k].1)
    ensures
      var m := After(Initial(n, intx), ws);
      && |m.entries| == n
      && (LastFlags(ws) == (true, false) ==> (Reaches(m, v) <==> !LastMask(ws, v)))
      && (!LastFlags(ws).0 ==> !Reaches(m, v) && NoTrigger(m.triggers))
  {
    RunSettled(n, intx, ws);
    var m := After(Initial(n, intx), ws);
    assert EntryInv(m.entries[v]) && Follows(m.entries[v]);
  }

  /** Masking the whole function stops nothing: what reached the guest still does. */
  lemma MaskingAllStopsNothing(m: Msis, a: Answers, v: nat)
    requires Settled(m) && m.virtEnabled && v < |m.entries|
    ensures
      var m' := Next(m, Capability(true, true), a);
      |m'.entries| == |m.entries| && (Reaches(m', v) <==> Reaches(m, v))
  {
  }

  /** On a run: a vector that was last unmasked interrupts the guest though the guest has masked the function since. */
  lemma MaskedYetReaches(n: nat, intx: bool, ws: seq<(Write, Answers)>, a: Answers, v: nat)
    requires v < n && forall k :: 0 <= k < |ws| ==> Succeed(ws[k].1)
    requires LastFlags(ws) == (true, false) && !LastMask(ws, v)
    ensures
      var m := After(Initial(n, intx), ws + [(Capability(true, true), a)]);
      m.virtMasked && |m.entries| == n && Reaches(m, v)
  {
    RunSettled(n, intx, ws);
    RunReaches(n, intx, ws, v);
    AfterAppend(Initial(n, intx), ws, Capability(true, true), a);
    MaskingAllStopsNothing(After(Initial(n, intx), ws), a, v);
  }
}
