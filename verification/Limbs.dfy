/** Numbers written in limbs of 32 bits, least significant first. */
module Limbs {
  import opened Numbers

  const LIMB: nat := 0x1_0000_0000
  const WIDTH: nat := 8

  predicate InRange(s: seq<int>) {
    forall i :: 0 <= i < |s| ==> 0 <= s[i] < LIMB
  }

  /** The number in the first n limbs. */
  ghost function Val(s: seq<int>, n: nat): int
    requires n <= |s|
  {
    if n == 0 then 0 else Val(s, n - 1) + s[n - 1] * Pow(LIMB, n - 1)
  }

  lemma {:induction false} ValBound(s: seq<int>, n: nat)
    requires InRange(s) && n <= |s|
    ensures 0 <= Val(s, n) < Pow(LIMB, n)
  {
    if n > 0 {
      ValBound(s, n - 1);
      PowPositive(LIMB, n - 1);
      MulMonotone(Pow(LIMB, n - 1), s[n - 1] + 1, LIMB);
      MulMonotone(Pow(LIMB, n - 1), 0, s[n - 1]);
    }
  }

  lemma {:induction false} ValPrefix(s: seq<int>, t: seq<int>, n: nat)
    requires n <= |s| && n <= |t| && forall i :: 0 <= i < n ==> s[i] == t[i]
    ensures Val(s, n) == Val(t, n)
  {
    if n > 0 {
      ValPrefix(s, t, n - 1);
    }
  }

  lemma {:induction false} ValUpdate(s: seq<int>, j: nat, x: int, n: nat)
    requires j < n <= |s|
    ensures Val(s[j := x], n) == Val(s, n) + (x - s[j]) * Pow(LIMB, j)
  {
    if j == n - 1 {
      ValPrefix(s, s[j := x], j);
      Distribute(x, s[j], Pow(LIMB, j));
    } else {
      ValUpdate(s, j, x, n - 1);
    }
  }

  lemma Distribute(x: int, y: int, p: int)
    ensures x * p == y * p + (x - y) * p
  {
  }

  lemma {:induction false} ValZero(s: seq<int>, n: nat)
    requires n <= |s| && forall i :: 0 <= i < n ==> s[i] == 0
    ensures Val(s, n) == 0
  {
    if n > 0 {
      ValZero(s, n - 1);
    }
  }

  /** Limbs above the first n are zero. */
  lemma {:induction false} ValExtend(s: seq<int>, n: nat, m: nat)
    requires n <= m <= |s| && forall i :: n <= i < m ==> s[i] == 0
    ensures Val(s, m) == Val(s, n)
  {
    if n < m {
      ValExtend(s, n, m - 1);
    }
  }

  /** Two numbers compare as their most significant different limbs do. */
  lemma {:induction false} ValLess(s: seq<int>, t: seq<int>, i: nat, n: nat)
    requires InRange(s) && InRange(t) && i < n <= |s| && n <= |t|
    requires s[i] < t[i] && forall j :: i < j < n ==> s[j] == t[j]
    ensures Val(s, n) < Val(t, n)
  {
    if i == n - 1 {
      ValBound(s, i);
      ValBound(t, i);
      MulMonotone(Pow(LIMB, i), s[i] + 1, t[i]);
    } else {
      ValLess(s, t, i, n - 1);
    }
  }

  // ---------- bits ----------

  /** Bitwise or. */
  function Or(x: nat, y: nat): nat
    decreases x + y
  {
    if x == 0 then y else if y == 0 then x
    else (if x % 2 == 1 || y % 2 == 1 then 1 else 0) + 2 * Or(x / 2, y / 2)
  }

  /** Numbers without common bits. */
  lemma {:induction false} OrDisjoint(x: nat, y: nat, s: nat)
    requires x % Two(s) == 0 && y < Two(s)
    ensures Or(x, y) == x + y && Or(y, x) == x + y
    decreases s
  {
    if x != 0 && y != 0 {
      HalfMultiple(x, s);
      OrDisjoint(x / 2, y / 2, s - 1);
    }
  }

  /** Setting a bit that is clear. */
  lemma {:induction false} OrBit(x: nat, s: nat)
    requires x / Two(s) % 2 == 0
    ensures Or(x, Two(s)) == x + Two(s)
  {
    if x != 0 && s > 0 {
      DivDiv(x, 2, Two(s - 1));
      OrBit(x / 2, s - 1);
    }
  }

  /** 2 to the power s. */
  function Two(s: nat): (r: nat)
    ensures r > 0
  {
    if s == 0 then 1 else 2 * Two(s - 1)
  }

  lemma HalfMultiple(x: nat, s: nat)
    requires s > 0 && x % Two(s) == 0
    ensures x % 2 == 0 && (x / 2) % Two(s - 1) == 0
  {
    var q := x / Two(s);
    assert x == q * Two(s) == 2 * (q * Two(s - 1));
    DivModUnique(x / 2, Two(s - 1), q, 0);
  }

  lemma {:induction false} TwoIsPow(s: nat)
    ensures Two(s) == Pow(2, s)
  {
    if s > 0 {
      TwoIsPow(s - 1);
    }
  }

  lemma TwoAdd(x: nat, y: nat)
    ensures Two(x + y) == Two(x) * Two(y)
  {
    TwoIsPow(x);
    TwoIsPow(y);
    TwoIsPow(x + y);
    PowAdd(2, x, y);
  }

  lemma LimbIsTwo()
    ensures LIMB == Two(32)
  {
    assert Two(8) == 256;
    TwoAdd(8, 8);
    TwoAdd(16, 16);
  }

  lemma {:induction false} LimbPow(n: nat)
    ensures Pow(LIMB, n) == Two(32 * n)
  {
    if n > 0 {
      LimbPow(n - 1);
      LimbIsTwo();
      TwoAdd(32, 32 * (n - 1));
    }
  }
}
