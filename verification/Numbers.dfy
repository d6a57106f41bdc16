/**
  Division by counting, so that what is proved about it needs no multiplication of unknowns.
 */
module Numbers {
  /** How many numbers have 16 bits. */
  const U16: nat := 0x1_0000

  /** How often `m` goes into `a`, and what is left. */
  function Quot(a: nat, m: nat): nat
    requires 0 < m
  {
    if a < m then 0 else Quot(a - m, m) + 1
  }

  function Rem(a: nat, m: nat): (r: nat)
    requires 0 < m
    ensures r < m && r <= a
  {
    if a < m then a else Rem(a - m, m)
  }

  lemma {:induction false} Divide(a: nat, m: nat)
    requires 0 < m
    ensures a == Quot(a, m) * m + Rem(a, m)
  {
    if m <= a {
      Divide(a - m, m);
      assert Quot(a, m) * m == Quot(a - m, m) * m + m;
    }
  }

  lemma {:induction false} SameQuot(a: nat, i: nat, m: nat)
    requires 0 < m && Rem(a, m) + i < m
    ensures Quot(a + i, m) == Quot(a, m) && Rem(a + i, m) == Rem(a, m) + i
    decreases a
  {
    if m <= a {
      SameQuot(a - m, i, m);
    }
  }

  lemma {:induction false} NextMultiple(a: nat, m: nat)
    requires 0 < m
    ensures Rem(a + (m - Rem(a, m)), m) == 0
    decreases a
  {
    if m <= a {
      NextMultiple(a - m, m);
    }
  }

  /** A multiple that is not beyond `e` is not beyond the last multiple up to `e`. */
  lemma {:induction false} MultipleBefore(x: nat, e: nat, m: nat)
    requires 0 < m && Rem(x, m) == 0 && x <= e
    ensures x <= e - Rem(e, m)
    decreases e
  {
    if m <= x {
      MultipleBefore(x - m, e - m, m);
    }
  }

  /** Taking a multiple away leaves the same remainder. */
  lemma {:induction false} RemSub(x: nat, y: nat, m: nat)
    requires 0 < m && y <= x && Rem(y, m) == 0
    ensures Rem(x, m) == Rem(x - y, m)
    decreases y
  {
    if m <= y {
      RemSub(x - m, y - m, m);
    }
  }

  /** Without its remainder a number is a multiple. */
  lemma {:induction false} RemTaken(x: nat, m: nat)
    requires 0 < m
    ensures Rem(x - Rem(x, m), m) == 0
    decreases x
  {
    if m <= x {
      RemTaken(x - m, m);
    }
  }

  /** Numbers less than `m` apart have different remainders. */
  lemma {:induction false} RemDistinct(x: nat, y: nat, m: nat)
    requires 0 < m && x < y < x + m
    ensures Rem(x, m) != Rem(y, m)
    decreases x
  {
    if m <= x {
      RemDistinct(x - m, y - m, m);
    }
  }

  function Pow2(n: nat): (r: nat)
    ensures 0 < r
  {
    if n == 0 then 1 else 2 * Pow2(n - 1)
  }

  function Min(a: nat, b: nat): nat { if a < b then a else b }
}
