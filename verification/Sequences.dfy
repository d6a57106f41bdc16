/**
  Sequences without repetition, and taking an element out.
 */
module Sequences {
  /** The sequence without the first occurrence of an element. */
  function Remove<X(==)>(s: seq<X>, x: X): seq<X>
  {
    if s == [] then [] else if s[0] == x then s[1..] else [s[0]] + Remove(s[1..], x)
  }

  ghost predicate Distinct(s: seq<nat>)
  {
    s == [] || (s[0] !in s[1..] && Distinct(s[1..]))
  }

  lemma {:induction false} RemoveMembers<X>(s: seq<X>, x: X)
    ensures forall y :: y in Remove(s, x) ==> y in s
    ensures forall y :: y in s && y != x ==> y in Remove(s, x)
    ensures |Remove(s, x)| == if x in s then |s| - 1 else |s|
    ensures x !in s ==> Remove(s, x) == s
  {
    if s != [] {
      RemoveMembers(s[1..], x);
      assert s == [s[0]] + s[1..];
    }
  }

  lemma {:induction false} RemoveDistinct(s: seq<nat>, x: nat)
    requires Distinct(s)
    ensures Distinct(Remove(s, x)) && x !in Remove(s, x)
  {
    if s != [] {
      RemoveDistinct(s[1..], x);
      RemoveMembers(s[1..], x);
      var r := Remove(s, x);
      if s[0] != x {
        assert r[1..] == Remove(s[1..], x);
      }
    }
  }

  lemma {:induction false} DistinctAppend(s: seq<nat>, x: nat)
    requires Distinct(s) && x !in s
    ensures Distinct(s + [x])
  {
    if s != [] {
      DistinctAppend(s[1..], x);
      assert (s + [x])[1..] == s[1..] + [x];
    }
  }

  lemma {:induction false} DistinctSplit(a: seq<nat>, b: seq<nat>)
    requires Distinct(a + b)
    ensures forall x :: x in a ==> x !in b
  {
    if a != [] {
      assert (a + b)[1..] == a[1..] + b && (a + b)[0] == a[0];
      DistinctSplit(a[1..], b);
    }
  }

  /** Distinct numbers below `max` are at most `max` many. */
  lemma {:induction false} Pigeonhole(s: seq<nat>, max: nat)
    requires Distinct(s) && forall x :: x in s ==> x < max
    ensures |s| <= max
    decreases max
  {
    assert forall i :: 0 <= i < |s| ==> s[i] in s;
    if max > 0 {
      var top: nat := max - 1;
      RemoveDistinct(s, top);
      RemoveMembers(s, top);
      Pigeonhole(Remove(s, top), top);
    }
  }

  lemma Associate<T>(p: seq<T>, q: seq<T>, r: seq<T>)
    ensures p + (q + r) == p + q + r
  {
  }

  /** The first element of the right part moves to the left one. */
  lemma MoveHead<T>(a: seq<T>, b: seq<T>)
    requires b != []
    ensures a + b == a + [b[0]] + b[1..]
  {
  }
}
