/**
  The memory banks of the guest: registering one, merging reserved ones, and translating addresses both ways.
 */
module MemBanks {
  datatype Kind = Ram | Device | Reserved

  datatype Bank = Bank(start: nat, size: nat, host: nat, kind: Kind)

  const EINVAL := -22

  // ---------------------------------------------------------------- ranges

  predicate Holds(b: Bank, a: nat) { b.start <= a < b.start + b.size }

  /** A bank and a range meet, judged by their first and last addresses. */
  predicate Hits(b: Bank, g: nat, s: nat)
  {
    !(g > b.start + b.size - 1 || g + s - 1 < b.start)
  }

  /** Meeting is sharing an address. */
  lemma HitsIsSharing(b: Bank, g: nat, s: nat)
    requires 0 < b.size && 0 < s
    ensures Hits(b, g, s) <==> exists a: nat :: Holds(b, a) && g <= a < g + s
  {
    if Hits(b, g, s) {
      var a: nat := if g < b.start then b.start else g;
      assert Holds(b, a) && g <= a < g + s;
    }
  }

  predicate Apart(b: Bank, c: Bank) { b.start + b.size <= c.start || c.start + c.size <= b.start }

  ghost predicate AllApart(s: seq<Bank>, t: seq<Bank>) { forall x, y :: x in s && y in t ==> Apart(x, y) }

  ghost predicate Disjoint(s: seq<Bank>)
  {
    s == [] || (AllApart([s[0]], s[1..]) && Disjoint(s[1..]))
  }

  lemma {:induction false} DisjointConcat(s: seq<Bank>, t: seq<Bank>)
    ensures Disjoint(s + t) <==> Disjoint(s) && Disjoint(t) && AllApart(s, t)
  {
    if s == [] {
      assert s + t == t;
    } else {
      DisjointConcat(s[1..], t);
      assert (s + t)[0] == s[0] && (s + t)[1..] == s[1..] + t;
      assert s == [s[0]] + s[1..];
    }
  }

  ghost predicate NonEmpty(s: seq<Bank>) { forall b :: b in s ==> 0 < b.size }

  /** Some bank holds the address. */
  ghost predicate Covered(s: seq<Bank>, a: nat) { exists b :: b in s && Holds(b, a) }

  // ---------------------------------------------------------------- merging

  /** A range and a bank it meets, together. */
  function Low(b: Bank, g: nat): nat { if b.start < g then b.start else g }

  function Span(b: Bank, g: nat, s: nat): int
  {
    (if b.start + b.size - 1 < g + s - 1 then g + s - 1 else b.start + b.size - 1) - Low(b, g) + 1
  }

  /** What registering has looked at: banks that stay, banks taken into the range, banks to come. */
  ghost predicate Looked(stay: seq<Bank>, taken: seq<Bank>, rest: seq<Bank>, g: nat, s: nat, g0: nat, s0: nat)
  {
    && Disjoint(stay) && Disjoint(rest) && AllApart(stay, rest) && AllApart(taken, stay) && AllApart(taken, rest)
    && 0 < s && 0 < s0 && NonEmpty(stay) && NonEmpty(rest)
    && (forall x :: x in stay ==> !Hits(x, g, s))
    && (forall a: nat {:trigger Covered(taken, a)} :: g <= a < g + s <==> g0 <= a < g0 + s0 || Covered(taken, a))
    && (forall x :: x in taken ==> x.kind == Reserved)
  }

  /** A bank to come meets the range exactly when it meets what was asked for. */
  lemma HitsOriginal(stay: seq<Bank>, taken: seq<Bank>, rest: seq<Bank>, g: nat, s: nat, g0: nat, s0: nat, b: Bank)
    requires Looked(stay, taken, rest, g, s, g0, s0) && b in rest
    ensures Hits(b, g, s) <==> Hits(b, g0, s0)
  {
    HitsIsSharing(b, g, s);
    HitsIsSharing(b, g0, s0);
    forall a: nat | Holds(b, a)
      ensures !Covered(taken, a)
    {
    }
    forall a: nat | Holds(b, a)
      ensures g <= a < g + s <==> g0 <= a < g0 + s0
    {
      assert !Covered(taken, a);
    }
  }

  /** A bank that does not meet the range stays. */
  lemma LookPast(stay: seq<Bank>, taken: seq<Bank>, rest: seq<Bank>, g: nat, s: nat, g0: nat, s0: nat)
    requires Looked(stay, taken, rest, g, s, g0, s0) && rest != [] && !Hits(rest[0], g, s)
    ensures Looked(stay + [rest[0]], taken, rest[1..], g, s, g0, s0)
  {
    assert rest == [rest[0]] + rest[1..];
    DisjointConcat(stay, [rest[0]]);
    assert Disjoint([rest[0]]);
  }

  /** The two ranges of a merge together hold what either held. */
  lemma SpanHolds(b: Bank, g: nat, s: nat)
    requires 0 < s && 0 < b.size && Hits(b, g, s)
    ensures 0 < Span(b, g, s)
    ensures forall a: nat :: Low(b, g) <= a < Low(b, g) + Span(b, g, s) <==> Holds(b, a) || g <= a < g + s
    ensures forall x: Bank :: 0 < x.size && Apart(x, b) && !Hits(x, g, s) ==> !Hits(x, Low(b, g), Span(b, g, s))
  {
  }

  /** A bank that meets the range is taken into it. */
  lemma LookTake(stay: seq<Bank>, taken: seq<Bank>, rest: seq<Bank>, g: nat, s: nat, g0: nat, s0: nat)
    requires Looked(stay, taken, rest, g, s, g0, s0) && rest != [] && Hits(rest[0], g, s) && rest[0].kind == Reserved
    ensures 0 < Span(rest[0], g, s)
    ensures Looked(stay, taken + [rest[0]], rest[1..], Low(rest[0], g), Span(rest[0], g, s), g0, s0)
  {
    var b := rest[0];
    assert rest == [b] + rest[1..];
    SpanHolds(b, g, s);
    forall a: nat
      ensures Covered(taken + [b], a) <==> Covered(taken, a) || Holds(b, a)
    {
      if Covered(taken, a) {
        var x :| x in taken && Holds(x, a);
        assert x in taken + [b];
      }
      if Holds(b, a) {
        assert b in taken + [b];
      }
    }
  }

  /** Where the range, grown by what was taken, stands among the banks that stay. */
  lemma Placed(left: seq<Bank>, right: seq<Bank>, taken: seq<Bank>, g: nat, s: nat, g0: nat, s0: nat, b: Bank)
    requires Looked(left + right, taken, [], g, s, g0, s0) && b.start == g && b.size == s
    ensures Disjoint(left + [b] + right) && NonEmpty(left + [b] + right)
  {
    DisjointConcat(left, right);
    DisjointConcat(left + [b], right);
    DisjointConcat(left, [b]);
    assert Disjoint([b]);
    forall x | x in left || x in right
      ensures Apart(x, b) && 0 < x.size
    {
      assert x in left + right;
      assert !Hits(x, g, s);
    }
  }

  // ---------------------------------------------------------------- registering

  /** A range may not meet a bank, except that reserved ranges may meet reserved banks. */
  predicate Conflicts(b: Bank, g: nat, s: nat, kind: Kind)
  {
    Hits(b, g, s) && !(b.kind == Reserved && kind == Reserved)
  }

  ghost predicate Refused(banks: seq<Bank>, g: nat, s: nat, kind: Kind)
  {
    exists b :: b in banks && Conflicts(b, g, s, kind)
  }

  /** The first bank that a range meets is reserved. */
  predicate MeetsReservedFirst(banks: seq<Bank>, g: nat, s: nat)
  {
    banks != [] && if Hits(banks[0], g, s) then banks[0].kind == Reserved else MeetsReservedFirst(banks[1..], g, s)
  }

  /** A look through the list: the range so far, the banks before and after the merged one, and those to come. */
  datatype Look = Look(g: nat, s: nat, left: seq<Bank>, merged: seq<Bank>, right: seq<Bank>, rest: seq<Bank>)

  /** What the list holds during it. */
  function Listed(k: Look): seq<Bank> { k.left + k.merged + k.right + k.rest }

  /** A bank that does not meet the range is passed over. */
  function Passed(k: Look): Look
    requires k.rest != []
  {
    if k.merged == [] then k.(left := k.left + [k.rest[0]], rest := k.rest[1..])
    else k.(right := k.right + [k.rest[0]], rest := k.rest[1..])
  }

  /** One that does takes the range in; a bank that did so before is removed. */
  function Merged(k: Look): Look
    requires k.rest != [] && 0 < Span(k.rest[0], k.g, k.s)
  {
    var b := k.rest[0];
    var g, s := Low(b, k.g), Span(b, k.g, k.s);
    Look(g, s, k.left + k.right, [b.(start := g, size := s)], [], k.rest[1..])
  }

  /** Every bank stays, is taken or is to come, and there are no others. */
  ghost predicate Accounted(banks: seq<Bank>, stay: seq<Bank>, taken: seq<Bank>, rest: seq<Bank>)
  {
    && (forall b :: b in banks ==> b in stay || b in taken || b in rest)
    && (forall b :: b in stay || b in taken || b in rest ==> b in banks)
  }

  ghost predicate NoConflict(banks: seq<Bank>, g: nat, s: nat, kind: Kind)
  {
    forall b :: b in banks ==> !Conflicts(b, g, s, kind)
  }

  lemma AccountedPast(banks: seq<Bank>, stay: seq<Bank>, taken: seq<Bank>, rest: seq<Bank>)
    requires Accounted(banks, stay, taken, rest) && rest != []
    ensures Accounted(banks, stay + [rest[0]], taken, rest[1..])
    ensures Accounted(banks, stay, taken + [rest[0]], rest[1..])
  {
    assert rest == [rest[0]] + rest[1..];
  }

  /** Nothing has been merged yet, or the range as it has grown stands in the list. */
  ghost predicate MergedSo(k: Look, taken: seq<Bank>, banks: seq<Bank>, g0: nat, s0: nat, kind: Kind)
  {
    if k.merged == [] then
      && taken == [] && k.right == [] && k.g == g0 && k.s == s0 && k.left + k.rest == banks
      && (MeetsReservedFirst(banks, g0, s0) <==> MeetsReservedFirst(k.rest, g0, s0))
    else
      && kind == Reserved && MeetsReservedFirst(banks, g0, s0) && taken != [] && |k.merged| == 1 &&
         k.merged[0] == Bank(k.g, k.s, k.merged[0].host, Reserved)
  }

  /** What holds during a look: everything above, every bank is accounted for, and none so far conflicts. */
  ghost predicate Looking(k: Look, taken: seq<Bank>, banks: seq<Bank>, g0: nat, s0: nat, kind: Kind)
  {
    && Looked(k.left + k.right, taken, k.rest, k.g, k.s, g0, s0)
    && MergedSo(k, taken, banks, g0, s0, kind)
    && Accounted(banks, k.left + k.right, taken, k.rest)
    && NoConflict(k.left + k.right, g0, s0, kind) && NoConflict(taken, g0, s0, kind)
  }

  lemma LookingStart(banks: seq<Bank>, g: nat, s: nat, kind: Kind)
    requires Disjoint(banks) && NonEmpty(banks) && 0 < s
    ensures Looking(Look(g, s, [], [], [], banks), [], banks, g, s, kind)
  {
    var none: seq<Bank> := [];
    assert none + none == none && none + banks == banks;
  }

  lemma LookingPassed(k: Look, taken: seq<Bank>, banks: seq<Bank>, g0: nat, s0: nat, kind: Kind)
    requires Looking(k, taken, banks, g0, s0, kind) && k.rest != [] && !Hits(k.rest[0], k.g, k.s)
    ensures Looking(Passed(k), taken, banks, g0, s0, kind)
  {
    var b, p := k.rest[0], Passed(k);
    LookPast(k.left + k.right, taken, k.rest, k.g, k.s, g0, s0);
    HitsOriginal(k.left + k.right, taken, k.rest, k.g, k.s, g0, s0, b);
    assert p.left + p.right == k.left + k.right + [b];
    AccountedPast(banks, k.left + k.right, taken, k.rest);
    if k.merged == [] {
      assert k.left + k.rest == k.left + [b] + k.rest[1..];
    }
  }

  lemma LookingMerged(k: Look, taken: seq<Bank>, banks: seq<Bank>, g0: nat, s0: nat, kind: Kind)
    requires Looking(k, taken, banks, g0, s0, kind) && k.rest != [] && Hits(k.rest[0], k.g, k.s)
    requires k.rest[0].kind == Reserved && kind == Reserved
    ensures 0 < Span(k.rest[0], k.g, k.s) && Looking(Merged(k), taken + [k.rest[0]], banks, g0, s0, kind)
  {
    var b := k.rest[0];
    LookTake(k.left + k.right, taken, k.rest, k.g, k.s, g0, s0);
    var p := Merged(k);
    assert p.left + p.right == k.left + k.right;
    AccountedPast(banks, k.left + k.right, taken, k.rest);
  }

  /**
    What a registration promises: no bank meets another, the range is added to what is covered, and banks in use stay.
   */
  ghost predicate Registered(before: seq<Bank>, after: seq<Bank>, g: nat, s: nat, host: nat, kind: Kind)
  {
    && Disjoint(after) && NonEmpty(after)
    && (forall a: nat :: Covered(after, a) <==> Covered(before, a) || g <= a < g + s)
    && (forall b :: b in after && b.kind != Reserved ==> b in before || b == Bank(g, s, host, kind))
    && (forall b :: b in before && b.kind != Reserved ==> b in after)
    && (kind != Reserved ==> Bank(g, s, host, kind) in after)
  }

  lemma CoveredParts(banks: seq<Bank>, stay: seq<Bank>, taken: seq<Bank>, a: nat)
    requires Accounted(banks, stay, taken, [])
    ensures Covered(banks, a) <==> Covered(stay, a) || Covered(taken, a)
  {
    if Covered(banks, a) {
      var b :| b in banks && Holds(b, a);
      assert b in stay || b in taken;
    }
    if Covered(stay, a) {
      var b :| b in stay && Holds(b, a);
      assert b in banks;
    }
    if Covered(taken, a) {
      var b :| b in taken && Holds(b, a);
      assert b in banks;
    }
  }

  lemma CoveredAround(left: seq<Bank>, b: Bank, right: seq<Bank>, a: nat)
    ensures Covered(left + [b] + right, a) <==> Covered(left + right, a) || Holds(b, a)
  {
    if Covered(left + [b] + right, a) {
      var x :| x in left + [b] + right && Holds(x, a);
      assert x in left + right || x == b;
    }
    if Covered(left + right, a) {
      var x :| x in left + right && Holds(x, a);
      assert x in left + [b] + right;
    }
    if Holds(b, a) {
      assert b in left + [b] + right;
    }
  }

  /** A look that merged ends with the range registered. */
  lemma MergedRegisters(k: Look, taken: seq<Bank>, banks: seq<Bank>, g0: nat, s0: nat, host: nat, kind: Kind)
    requires Looking(k, taken, banks, g0, s0, kind) && k.rest == [] && k.merged != []
    ensures Registered(banks, Listed(k), g0, s0, host, kind)
  {
    var b := k.merged[0];
    assert Listed(k) == k.left + [b] + k.right;
    Placed(k.left, k.right, taken, k.g, k.s, g0, s0, b);
    forall a: nat
      ensures Covered(Listed(k), a) <==> Covered(banks, a) || g0 <= a < g0 + s0
    {
      CoveredAround(k.left, b, k.right, a);
      CoveredParts(banks, k.left + k.right, taken, a);
    }
  }

  /** One that did not ends with a new bank at the head of the list. */
  lemma AddedRegisters(k: Look, taken: seq<Bank>, banks: seq<Bank>, g0: nat, s0: nat, host: nat, kind: Kind)
    requires Looking(k, taken, banks, g0, s0, kind) && k.rest == [] && k.merged == []
    ensures Registered(banks, [Bank(g0, s0, host, kind)] + banks, g0, s0, host, kind)
  {
    var b, none: seq<Bank> := Bank(g0, s0, host, kind), [];
    assert k.left + k.right == banks && none + banks == banks && none + [b] + banks == [b] + banks;
    Placed(none, banks, taken, k.g, k.s, g0, s0, b);
    forall a: nat
      ensures Covered([b] + banks, a) <==> Covered(banks, a) || g0 <= a < g0 + s0
    {
      CoveredAround(none, b, banks, a);
    }
  }

  /** A look that ends is not refused. */
  lemma EndNotRefused(k: Look, taken: seq<Bank>, banks: seq<Bank>, g0: nat, s0: nat, kind: Kind)
    requires Looking(k, taken, banks, g0, s0, kind) && k.rest == []
    ensures !Refused(banks, g0, s0, kind)
  {
  }

  /**
    A look that meets a conflict is refused; the list still has no two banks that meet exactly when nothing was
    merged.
   */
  lemma ConflictRefuses(k: Look, taken: seq<Bank>, banks: seq<Bank>, g0: nat, s0: nat, kind: Kind)
    requires Looking(k, taken, banks, g0, s0, kind) && k.rest != [] && Conflicts(k.rest[0], k.g, k.s, kind)
    requires Disjoint(banks)
    ensures Refused(banks, g0, s0, kind)
    ensures Disjoint(Listed(k)) <==> !(kind == Reserved && MeetsReservedFirst(banks, g0, s0))
    ensures k.merged == [] ==> Listed(k) == banks
  {
    var b := k.rest[0];
    HitsOriginal(k.left + k.right, taken, k.rest, k.g, k.s, g0, s0, b);
    assert b in banks;
    if k.merged == [] {
      assert Listed(k) == k.left + k.rest;
    } else {
      DisjointConcat(k.left + k.merged + k.right, k.rest);
      assert k.merged[0] in k.left + k.merged + k.right;
      assert !Apart(k.merged[0], b);
    }
  }

  /**
    A reserved range that meets a reserved bank first and then memory: the merge is made, then the range is refused.
   */
  lemma MergeBeforeRefusal()
    ensures var banks := [Bank(10, 10, 0, Reserved), Bank(20, 10, 0x7000, Ram)];
            && Disjoint(banks) && Refused(banks, 15, 10, Reserved)
            && var k := Merged(Look(15, 10, [], [], [], banks));
            && Listed(k) == [Bank(10, 15, 0, Reserved), Bank(20, 10, 0x7000, Ram)] && !Disjoint(Listed(k))
            && Conflicts(k.rest[0], k.g, k.s, Reserved)
  {
    var banks := [Bank(10, 10, 0, Reserved), Bank(20, 10, 0x7000, Ram)];
    assert banks[1..] == [banks[1]] && banks[1] in banks;
    var listed := Listed(Merged(Look(15, 10, [], [], [], banks)));
    assert listed == [Bank(10, 15, 0, Reserved), Bank(20, 10, 0x7000, Ram)];
    assert listed[1] in listed[1..] && !Apart(listed[0], listed[1]);
  }

  // ---------------------------------------------------------------- translation

  predicate HoldsHost(b: Bank, p: nat) { b.host <= p < b.host + b.size }

  /** The host address of a guest address, by the first bank that holds it; zero if none does. */
  function ToHost(banks: seq<Bank>, a: nat): nat
  {
    if banks == [] then 0
    else if Holds(banks[0], a) then banks[0].host + (a - banks[0].start)
    else ToHost(banks[1..], a)
  }

  function ToGuest(banks: seq<Bank>, p: nat): nat
  {
    if banks == [] then 0
    else if HoldsHost(banks[0], p) then banks[0].start + (p - banks[0].host)
    else ToGuest(banks[1..], p)
  }

  /** Where no two banks meet, whichever bank holds an address translates it. */
  lemma {:induction false} ToHostBy(banks: seq<Bank>, i: nat, a: nat)
    requires Disjoint(banks) && i < |banks| && Holds(banks[i], a)
    ensures ToHost(banks, a) == banks[i].host + (a - banks[i].start)
  {
    if i > 0 {
      assert banks[i] in banks[1..] && Apart(banks[0], banks[i]);
      ToHostBy(banks[1..], i - 1, a);
    }
  }

  /** The first bank whose host range holds an address translates it back. */
  lemma {:induction false} ToGuestBy(banks: seq<Bank>, i: nat, p: nat) returns (j: nat)
    requires i < |banks| && HoldsHost(banks[i], p)
    ensures j <= i && HoldsHost(banks[j], p) && forall m :: 0 <= m < j ==> !HoldsHost(banks[m], p)
    ensures ToGuest(banks, p) == banks[j].start + (p - banks[j].host)
  {
    j := 0;
    if !HoldsHost(banks[0], p) {
      j := ToGuestBy(banks[1..], i - 1, p);
      assert forall m :: 0 < m <= j ==> banks[m] == banks[1..][m - 1];
      j := j + 1;
    }
  }

  lemma {:induction false} DisjointApart(banks: seq<Bank>, i: nat, j: nat)
    requires Disjoint(banks) && i < j < |banks|
    ensures Apart(banks[i], banks[j])
  {
    if i == 0 {
      assert banks[j] in banks[1..];
    } else {
      DisjointApart(banks[1..], i - 1, j - 1);
    }
  }

  /** The answer is zero exactly where no bank holds the address, or where the bank that does puts it at zero. */
  lemma {:induction false} ToHostZero(banks: seq<Bank>, a: nat)
    requires Disjoint(banks)
    ensures ToHost(banks, a) == 0 <==>
            forall i :: 0 <= i < |banks| && Holds(banks[i], a) ==> banks[i].host == 0 && a == banks[i].start
  {
    if i :| 0 <= i < |banks| && Holds(banks[i], a) {
      ToHostBy(banks, i, a);
      forall j | 0 <= j < |banks| && Holds(banks[j], a) ensures j == i {
        if j < i {
          DisjointApart(banks, j, i);
        } else if i < j {
          DisjointApart(banks, i, j);
        }
      }
    } else {
      ToHostNone(banks, a);
    }
  }

  lemma {:induction false} ToHostNone(banks: seq<Bank>, a: nat)
    requires forall i :: 0 <= i < |banks| ==> !Holds(banks[i], a)
    ensures ToHost(banks, a) == 0
  {
    if banks != [] {
      ToHostNone(banks[1..], a);
    }
  }

  ghost predicate FirstWith(banks: seq<Bank>, i: nat, p: nat)
    requires i < |banks|
  {
    HoldsHost(banks[i], p) && forall j :: 0 <= j < i ==> !HoldsHost(banks[j], p)
  }

  /** Back it is zero exactly where no bank has the host address, or where the first that does begins there at zero. */
  lemma {:induction false} ToGuestZero(banks: seq<Bank>, p: nat)
    ensures ToGuest(banks, p) == 0 <==>
            forall i :: 0 <= i < |banks| && FirstWith(banks, i, p) ==> banks[i].start == 0 && p == banks[i].host
  {
    if i :| 0 <= i < |banks| && HoldsHost(banks[i], p) {
      var j := ToGuestBy(banks, i, p);
      assert FirstWith(banks, j, p);
    } else {
      ToGuestNone(banks, p);
    }
  }

  lemma {:induction false} ToGuestNone(banks: seq<Bank>, p: nat)
    requires forall i :: 0 <= i < |banks| ==> !HoldsHost(banks[i], p)
    ensures ToGuest(banks, p) == 0
  {
    if banks != [] {
      ToGuestNone(banks[1..], p);
    }
  }

  /**
    From a host address of a bank to the guest and back changes nothing. From a guest address of a bank to the host
    and back changes nothing exactly when no bank before it in the list has that host address too.
   */
  lemma TranslationRoundTrip(banks: seq<Bank>, i: nat, offset: nat)
    requires Disjoint(banks) && i < |banks| && offset < banks[i].size
    ensures ToHost(banks, ToGuest(banks, banks[i].host + offset)) == banks[i].host + offset
    ensures ToGuest(banks, ToHost(banks, banks[i].start + offset)) == banks[i].start + offset <==>
            forall j :: 0 <= j < i ==> !HoldsHost(banks[j], banks[i].host + offset)
  {
    ToHostBy(banks, i, banks[i].start + offset);
    var p := banks[i].host + offset;
    var j := ToGuestBy(banks, i, p);
    ToHostBy(banks, j, ToGuest(banks, p));
    if j < i {
      DisjointApart(banks, j, i);
    }
  }

  predicate HostApart(b: Bank, c: Bank) { b.host + b.size <= c.host || c.host + c.size <= b.host }

  /** A bank whose host range is its own translates both ways, however the host ranges of the others lie. */
  lemma OwnHostRange(banks: seq<Bank>, i: nat, offset: nat)
    requires Disjoint(banks) && i < |banks| && offset < banks[i].size
    requires forall j :: 0 <= j < |banks| && j != i ==> HostApart(banks[i], banks[j])
    ensures ToHost(banks, ToGuest(banks, banks[i].host + offset)) == banks[i].host + offset
    ensures ToGuest(banks, ToHost(banks, banks[i].start + offset)) == banks[i].start + offset
  {
    TranslationRoundTrip(banks, i, offset);
  }

  /**
    Reserved banks all have host address zero: the second in the list does not translate back, memory beside them
    does.
   */
  lemma ReservedShareHost(offset: nat)
    requires offset < 0x1000
    ensures var banks := [Bank(0x9000, 0x1000, 0, Reserved), Bank(0x5000, 0x1000, 0, Reserved),
                          Bank(0, 0x4000, 0x7000, Ram)];
            && Disjoint(banks) && !HostApart(banks[0], banks[1])
            && ToGuest(banks, ToHost(banks, 0x5000 + offset)) == 0x9000 + offset
            && ToGuest(banks, ToHost(banks, offset)) == offset
  {
    var banks := [Bank(0x9000, 0x1000, 0, Reserved), Bank(0x5000, 0x1000, 0, Reserved), Bank(0, 0x4000, 0x7000, Ram)];
    assert banks[1..] == [banks[1], banks[2]] && banks[1..][1..] == [banks[2]] && banks[1..][1..][1..] == [];
    ToHostBy(banks, 1, 0x5000 + offset);
    OwnHostRange(banks, 2, offset);
  }

  class Memory {
    var banks: seq<Bank>
    var slots: nat

    ghost predicate Valid()
      reads this
    {
      Disjoint(banks) && NonEmpty(banks)
    }

    constructor ()
      ensures Valid() && banks == []
    {
      banks, slots := [], 0;
    }

    /** Looks through the list for banks that the range meets, up to one it must not meet. */
    method LookThrough(guest: nat, size: nat, kind: Kind) returns (ok: bool, k: Look, ghost taken: seq<Bank>)
      requires Valid() && 0 < size
      modifies this`banks
      ensures Looking(k, taken, old(banks), guest, size, kind) && banks == Listed(k)
      ensures if ok then k.rest == [] else k.rest != [] && Conflicts(k.rest[0], k.g, k.s, kind)
    {
      ghost var before := banks;
      taken := [];
      k := Look(guest, size, [], [], [], banks);
      LookingStart(banks, guest, size, kind);
      assert Listed(k) == banks;
      while k.rest != []
        invariant Looking(k, taken, before, guest, size, kind) && banks == Listed(k)
        decreases |k.rest|
      {
        var b := k.rest[0];
        if !Hits(b, k.g, k.s) {
          LookingPassed(k, taken, before, guest, size, kind);
          ListedPassed(k);
          k := Passed(k);
        } else if b.kind == Reserved && kind == Reserved {
          LookingMerged(k, taken, before, guest, size, kind);
          taken := taken + [b];
          k := Merged(k);
          banks := Listed(k);
        } else {
          return false, k, taken;
        }
      }
      return true, k, taken;
    }

    /**
      Registers a range; `installed` is the answer of the hypervisor. Reserved banks that a reserved range meets
      are merged into the last of them. A refusal that comes after a merge leaves the merge in the list.
     */
    method Register(guest: nat, size: nat, host: nat, kind: Kind, installed: bool) returns (ret: int)
      requires Valid() && 0 < size
      modifies this
      ensures ret == EINVAL <==> Refused(old(banks), guest, size, kind)
      ensures ret == -1 <==> !Refused(old(banks), guest, size, kind) && kind != Reserved && !installed
      ensures ret == -1 ==> banks == old(banks)
      ensures ret != EINVAL && ret != -1 ==> ret == 0 && Registered(old(banks), banks, guest, size, host, kind)
      ensures ret == EINVAL ==>
              (Disjoint(banks) <==> !(kind == Reserved && MeetsReservedFirst(old(banks), guest, size)))
      ensures ret == EINVAL && Disjoint(banks) ==> banks == old(banks)
      ensures ret == 0 && !MeetsReservedFirst(old(banks), guest, size) ==>
                banks == [Bank(guest, size, host, kind)] + old(banks)
    {
      ghost var before, taken := banks, [];
      var ok, k;
      ok, k, taken := LookThrough(guest, size, kind);
      if !ok {
        ConflictRefuses(k, taken, before, guest, size, kind);
        return EINVAL;
      }
      EndNotRefused(k, taken, before, guest, size, kind);
      if k.merged != [] {
        MergedRegisters(k, taken, before, guest, size, host, kind);
        return 0;
      }
      assert banks == before;
      AddedRegisters(k, taken, before, guest, size, host, kind);
      if kind != Reserved {
        slots := slots + 1;
        if !installed {
          return -1;
        }
      }
      banks := [Bank(guest, size, host, kind)] + banks;
      return 0;
    }

    method GuestFlatToHost(offset: nat) returns (p: nat)
      ensures p == ToHost(banks, offset)
    {
      ghost var rest := banks;
      for i := 0 to |banks|
        invariant rest == banks[i..] && ToHost(rest, offset) == ToHost(banks, offset)
      {
        var bank := banks[i];
        if offset >= bank.start && offset < bank.start + bank.size {
          return bank.host + (offset - bank.start);
        }
        rest := rest[1..];
      }
      return 0;
    }

    method HostToGuestFlat(p: nat) returns (a: nat)
      ensures a == ToGuest(banks, p)
    {
      ghost var rest := banks;
      for i := 0 to |banks|
        invariant rest == banks[i..] && ToGuest(rest, p) == ToGuest(banks, p)
      {
        var bank := banks[i];
        if p >= bank.host && p < bank.host + bank.size {
          return bank.start + (p - bank.host);
        }
        rest := rest[1..];
      }
      return 0;
    }
  }

  lemma ListedPassed(k: Look)
    requires k.rest != [] && (k.merged == [] ==> k.right == [])
    ensures Listed(Passed(k)) == Listed(k)
  {
    assert k.rest == [k.rest[0]] + k.rest[1..];
  }
}