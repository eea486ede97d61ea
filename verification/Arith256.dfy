/**
 Unsigned integers of 256 bits held in eight limbs that the operators update in place. Every limb loop
 is proved against arithmetic on whole numbers modulo 2^256.
 */
module Arith256 {
  import opened Numbers
  import opened Limbs

  /** 2^256 */
  ghost function Modulus(): (m: nat)
    ensures m > 0
  {
    PowPositive(LIMB, WIDTH);
    Pow(LIMB, WIDTH)
  }

  /** A remainder is known from any number of turns around the modulus. */
  lemma WrapsTo(x: int, y: int, c: int)
    requires 0 <= x < Modulus() && x + c * Modulus() == y
    ensures x == y % Modulus()
  {
    DivModUnique(y, Modulus(), c, x);
  }

  class U256 {
    const pn: array<int>

    ghost predicate Valid()
      reads this, pn
    {
      pn.Length == WIDTH && InRange(pn[..])
    }

    ghost function V(): (v: int)
      requires Valid()
      reads this, pn
      ensures 0 <= v < Modulus()
    {
      ValBound(pn[..], WIDTH);
      Val(pn[..], WIDTH)
    }

    constructor (b: nat)
      requires b < LIMB * LIMB
      ensures Valid() && fresh(pn) && V() == b
    {
      pn := new int[WIDTH](i => if i == 0 then b % LIMB else if i == 1 then b / LIMB else 0);
      new;
      ValExtend(pn[..], 2, WIDTH);
      assert Val(pn[..], 2) == Val(pn[..], 1) + pn[1] * Pow(LIMB, 1);
      assert Val(pn[..], 1) == pn[0] * Pow(LIMB, 0);
      assert Pow(LIMB, 1) == LIMB;
    }

    constructor Copy(b: U256)
      requires b.Valid()
      ensures Valid() && fresh(pn) && V() == b.V()
    {
      pn := new int[WIDTH](i requires 0 <= i < b.pn.Length reads b, b.pn => b.pn[i]);
      new;
      assert pn[..] == b.pn[..];
    }

    method Assign(b: nat)
      requires Valid() && b < LIMB * LIMB
      modifies pn
      ensures Valid() && V() == b
    {
      pn[0], pn[1] := b % LIMB, b / LIMB;
      for i := 2 to WIDTH
        invariant pn[0] == b % LIMB && pn[1] == b / LIMB
        invariant forall j :: 2 <= j < i ==> pn[j] == 0
      {
        pn[i] := 0;
      }
      ValExtend(pn[..], 2, WIDTH);
      assert Val(pn[..], 2) == Val(pn[..], 1) + pn[1] * Pow(LIMB, 1);
      assert Val(pn[..], 1) == pn[0] * Pow(LIMB, 0);
      assert Pow(LIMB, 1) == LIMB;
    }

    /** += */
    method Add(b: U256)
      requires Valid() && b.Valid()
      modifies pn
      ensures Valid() && V() == (old(V()) + old(b.V())) % Modulus()
    {
      ghost var s, t := pn[..], b.pn[..];
      var carry := 0;
      ValNone(s);
      ValNone(t);
      hide Val;
      hide Pow;
      for i := 0 to WIDTH
        invariant 0 <= carry <= 1
        invariant forall j :: 0 <= j < i ==> 0 <= pn[j] < LIMB
        invariant forall j :: i <= j < WIDTH ==> pn[j] == s[j] && b.pn[j] == t[j]
        invariant Val(pn[..], i) + carry * Pow(LIMB, i) == Val(s, i) + Val(t, i)
      {
        ghost var was := pn[..];
        ghost var c := carry;
        var n := carry + pn[i] + b.pn[i];
        pn[i] := n % LIMB;
        carry := n / LIMB;
        ValPrefix(was, pn[..], i);
        ValNext(s, i);
        ValNext(t, i);
        ValNext(pn[..], i);
        PowNext(i);
        AddStep(Pow(LIMB, i), n, c, s[i], t[i]);
      }
      WrapsTo(V(), old(V()) + old(b.V()), carry);
    }

    /** ++ */
    method Increment()
      requires Valid()
      modifies pn
      ensures Valid() && V() == (old(V()) + 1) % Modulus()
    {
      ghost var s := pn[..];
      var i := 0;
      IncrementLimb(s, 0, Val(s, WIDTH) + 1);
      pn[0] := (pn[0] + 1) % LIMB;
      assert pn[..] == s[0 := pn[0]];
      while pn[i] == 0 && i < WIDTH - 1
        invariant 0 <= i < WIDTH && InRange(pn[..])
        invariant Val(pn[..], WIDTH) == Val(s, WIDTH) + 1 - if pn[i] == 0 then Pow(LIMB, i + 1) else 0
      {
        ghost var was := pn[..];
        i := i + 1;
        IncrementLimb(was, i, Val(s, WIDTH) + 1);
        pn[i] := (pn[i] + 1) % LIMB;
        assert pn[..] == was[i := pn[i]];
      }
      WrapsTo(V(), old(V()) + 1, if pn[i] == 0 then 1 else 0);
    }

    /** Unary minus. */
    method Negated() returns (ret: U256)
      requires Valid()
      ensures fresh(ret) && fresh(ret.pn) && ret.Valid() && ret.V() == -V() % Modulus()
    {
      ret := new U256(0);
      for i := 0 to WIDTH
        invariant ret.Valid() && fresh(ret.pn)
        invariant Val(ret.pn[..], i) == Pow(LIMB, i) - 1 - Val(pn[..], i)
      {
        ghost var was := ret.pn[..];
        ret.pn[i] := LIMB - 1 - pn[i];
        ValPrefix(was, ret.pn[..], i);
        ComplementStep(Pow(LIMB, i), pn[i]);
      }
      ghost var v := ret.V();
      ret.Increment();
      NegateWrap(V(), v, ret.V());
    }

    /** -= */
    method Sub(b: U256)
      requires Valid() && b.Valid()
      modifies pn
      ensures Valid() && V() == (old(V()) - old(b.V())) % Modulus()
    {
      ghost var x, y := V(), b.V();
      var minus := b.Negated();
      Add(minus);
      ModSum(x, -y, Modulus());
    }

    /** *= by one limb */
    method MulLimb(b32: int)
      requires Valid() && 0 <= b32 < LIMB
      modifies pn
      ensures Valid() && V() == old(V()) * b32 % Modulus()
    {
      ghost var s := pn[..];
      var carry := 0;
      ValNone(s);
      ValNone(pn[..]);
      hide Val;
      hide Pow;
      for i := 0 to WIDTH
        invariant 0 <= carry < LIMB
        invariant forall j :: 0 <= j < i ==> 0 <= pn[j] < LIMB
        invariant forall j :: i <= j < WIDTH ==> pn[j] == s[j]
        invariant Val(pn[..], i) + carry * Pow(LIMB, i) == Val(s, i) * b32
      {
        ghost var was, c := pn[..], carry;
        LimbProduct(carry, b32, pn[i], 0);
        var n := carry + b32 * pn[i];
        pn[i] := n % LIMB;
        carry := n / LIMB;
        ValPrefix(was, pn[..], i);
        ValNext(s, i);
        ValNext(pn[..], i);
        PowNext(i);
        MulStep(Pow(LIMB, i), n, c, b32, s[i], Val(s, i));
      }
      WrapsTo(V(), old(V()) * b32, carry);
    }

    /** -1, 0 or 1 as this number is less than, equal to or greater than b. */
    method CompareTo(b: U256) returns (r: int)
      requires Valid() && b.Valid()
      ensures r == if V() < b.V() then -1 else if V() == b.V() then 0 else 1
    {
      var i := WIDTH;
      while i > 0
        invariant 0 <= i <= WIDTH
        invariant forall j :: i <= j < WIDTH ==> pn[j] == b.pn[j]
      {
        i := i - 1;
        if pn[i] < b.pn[i] {
          ValLess(pn[..], b.pn[..], i, WIDTH);
          return -1;
        }
        if pn[i] > b.pn[i] {
          ValLess(b.pn[..], pn[..], i, WIDTH);
          return 1;
        }
      }
      ValPrefix(pn[..], b.pn[..], WIDTH);
      r := 0;
    }

    /** The number of bits needed to write the number. */
    method Bits() returns (n: nat)
      requires Valid()
      ensures n <= 256 && V() < Two(n) && (n > 0 ==> Two(n - 1) <= V())
    {
      var pos := WIDTH;
      while pos > 0
        invariant 0 <= pos <= WIDTH && forall j :: pos <= j < WIDTH ==> pn[j] == 0
      {
        pos := pos - 1;
        if pn[pos] != 0 {
          ValExtend(pn[..], pos + 1, WIDTH);
          var bits := HighBit(pn[pos]);
          LimbBits(pn[..], pos, bits);
          return 32 * pos + bits + 1;
        }
      }
      ValZero(pn[..], WIDTH);
      n := 0;
    }

    /** Add a_j * b at limb j, as one row of the long multiplication. */
    method AddRow(aj: int, b: U256, j: nat)
      requires Valid() && b.Valid() && 0 <= aj < LIMB && j < WIDTH
      requires b.pn == pn ==> forall i :: 0 <= i < WIDTH ==> pn[i] == 0
      modifies pn
      ensures Valid() && V() == (old(V()) + aj * old(b.V()) * Pow(LIMB, j)) % Modulus()
      ensures b.pn == pn ==> pn[..] == old(pn[..])
    {
      ghost var s, t := pn[..], b.pn[..];
      var carry := 0;
      for i := 0 to WIDTH - j
        invariant Valid() && 0 <= carry < LIMB && b.pn[..] == t && (b.pn == pn ==> carry == 0)
        invariant Val(pn[..], WIDTH) + carry * Pow(LIMB, i + j) == Val(s, WIDTH) + aj * Val(t, i) * Pow(LIMB, j)
      {
        ghost var was, c := pn[..], carry;
        LimbProduct(carry, aj, b.pn[i], pn[i + j]);
        var n := carry + pn[i + j] + aj * b.pn[i];
        RowStep(was, i, j, n, c, aj, t);
        pn[i + j] := n % LIMB;
        carry := n / LIMB;
        assert pn[..] == was[i + j := n % LIMB];
      }
      RowWrap(t, j, aj, Val(s, WIDTH), V(), carry);
    }

    /** *= ; multiplying a number by itself in place finds the operand cleared already. */
    method Mul(b: U256)
      requires Valid() && b.Valid()
      modifies pn
      ensures Valid() && V() == if b.pn == pn then 0 else old(V()) * old(b.V()) % Modulus()
    {
      ghost var vb := b.V();
      var a := pn[..];
      Assign(0);
      ZeroLimbs(pn[..], WIDTH);
      ghost var f := if b.pn == pn then 0 else vb;
      for j := 0 to WIDTH
        invariant Valid() && b.Valid() && b.V() == f
        invariant b.pn == pn ==> forall i :: 0 <= i < WIDTH ==> pn[i] == 0
        invariant V() == Val(a, j) * f % Modulus()
      {
        ghost var v := V();
        AddRow(a[j], b, j);
        ModSum(a[j] * f * Pow(LIMB, j), Val(a, j) * f, Modulus());
        RowSum(Val(a, j), a[j], f, Pow(LIMB, j));
      }
    }

    /** Or a value into limb j; a limb beyond the end is dropped. */
    method Put(j: nat, x: int) returns (ghost c: int)
      requires Valid() && 0 <= x < LIMB && (j < WIDTH ==> Or(pn[j], x) == pn[j] + x < LIMB)
      modifies pn
      ensures Valid() && c >= 0 && Val(pn[..], WIDTH) + c * Modulus() == old(Val(pn[..], WIDTH)) + x * Pow(LIMB, j)
      ensures j < WIDTH ==> pn[..] == old(pn[..])[j := old(pn[j]) + x] && c == 0
      ensures j >= WIDTH ==> pn[..] == old(pn[..])
    {
      if j < WIDTH {
        ghost var was := pn[..];
        ValUpdate(was, j, was[j] + x, WIDTH);
        pn[j] := Or(pn[j], x);
        assert pn[..] == was[j := was[j] + x];
        c := 0;
      } else {
        PowAdd(LIMB, j - WIDTH, WIDTH);
        MulAssoc(x, Pow(LIMB, j - WIDTH), Modulus());
        c := x * Pow(LIMB, j - WIDTH);
      }
    }

    method Clear()
      requires Valid()
      modifies pn
      ensures Valid() && V() == 0 && forall j :: 0 <= j < WIDTH ==> pn[j] == 0
    {
      for i := 0 to WIDTH
        invariant forall j :: 0 <= j < i ==> pn[j] == 0
      {
        pn[i] := 0;
      }
      ValZero(pn[..], WIDTH);
    }

    /** Or one limb, shifted left by r bits, into limbs j and j + 1. */
    method PutShifted(j: nat, x: int, r: nat) returns (ghost c: int)
      requires Valid() && 0 <= x < LIMB && r < 32
      requires forall i :: j < i < WIDTH ==> pn[i] == 0
      requires j < WIDTH ==> pn[j] < Two(r)
      modifies pn
      ensures Valid() && c >= 0
      ensures Val(pn[..], WIDTH) + c * Modulus() == old(Val(pn[..], WIDTH)) + x * Two(r) * Pow(LIMB, j)
      ensures forall i :: j + 1 < i < WIDTH ==> pn[i] == 0
      ensures j + 1 < WIDTH ==> pn[j + 1] < Two(r)
    {
      hide Two;
      hide Val;
      hide Pow;
      LeftParts(x, r);
      var hi := if r == 0 then 0 else x / Two(32 - r);
      var lo := x * Two(r) % LIMB;
      if j < WIDTH {
        OrDisjoint(lo, pn[j], r);
        SumFits(lo, pn[j], r);
      }
      ghost var c1, c2;
      if j + 1 < WIDTH && r != 0 {
        c1 := Put(j + 1, hi);
      } else {
        c1 := Dropped(hi, j + 1);
      }
      c2 := Put(j, lo);
      ShiftedSum(x * Two(r), hi, lo, j);
      c := c1 + c2;
      Turns(c1, c2);
    }

    /** <<= */
    method ShiftLeft(shift: nat)
      requires Valid()
      modifies pn
      ensures Valid() && V() == old(V()) * Two(shift) % Modulus()
    {
      var a := pn[..];
      Clear();
      var k, r := shift / 32, shift % 32;
      ghost var c := 0;
      for i := 0 to WIDTH
        invariant Valid()
        invariant forall j :: i + k < j < WIDTH ==> pn[j] == 0
        invariant i + k < WIDTH ==> pn[i + k] < Two(r)
        invariant Val(pn[..], WIDTH) + c * Modulus() == Val(a, i) * Two(r) * Pow(LIMB, k)
      {
        ghost var c1 := PutShifted(i + k, a[i], r);
        LeftStep(Val(a, i), a[i], Two(r), i, k);
        Turns(c, c1);
        c := c + c1;
      }
      LeftWrap(a, k, r, shift, c, V());
    }

    /** >>= */
    method ShiftRight(shift: nat)
      requires Valid()
      modifies pn
      ensures Valid() && V() == old(V()) / Two(shift)
    {
      var a := pn[..];
      Clear();
      var k, r := shift / 32, shift % 32;
      for i := 0 to WIDTH
        invariant Valid()
        invariant forall j :: 0 <= j < WIDTH && i - k <= j ==> pn[j] == 0
        invariant i - k - 1 >= 0 ==> pn[i - k - 1] < Two(32 - r)
        invariant Val(pn[..], WIDTH) * (Two(r) * Pow(LIMB, k)) + Shifted(a, i, k, r) == Val(a, i)
      {
        ghost var v := Val(pn[..], WIDTH);
        if i >= k {
          PutBack(i - k, a[i], r);
          RightStep(a, i, k, r, v, Val(pn[..], WIDTH));
        }
      }
      RightEnd(a, k, r, shift, V());
    }

    /** Or one limb, shifted right by r bits, into limbs j - 1 and j. */
    method PutBack(j: nat, x: int, r: nat)
      requires Valid() && 0 <= x < LIMB && r < 32 && j < WIDTH
      requires forall i :: j <= i < WIDTH ==> pn[i] == 0
      requires j >= 1 ==> pn[j - 1] < Two(32 - r)
      modifies pn
      ensures Valid()
      ensures Val(pn[..], WIDTH) == old(Val(pn[..], WIDTH)) + x / Two(r) * Pow(LIMB, j)
                                    + if j >= 1 then x % Two(r) * Two(32 - r) * Pow(LIMB, j - 1) else 0
      ensures forall i :: j < i < WIDTH ==> pn[i] == 0
      ensures pn[j] < Two(32 - r)
    {
      hide Val;
      hide Pow;
      RightParts(x, r);
      ghost var c;
      if j >= 1 && r != 0 {
        var low := x * Two(32 - r) % LIMB;
        OrDisjoint(low, pn[j - 1], 32 - r);
        SumFits(low, pn[j - 1], 32 - r);
        c := Put(j - 1, low);
      }
      c := Put(j, x / Two(r));
    }

    /** /= ; the answer is false for division by zero, which the source reports as an error. */
    method Div(b: U256) returns (ok: bool)
      requires Valid() && b.Valid()
      modifies pn
      ensures Valid() && ok == (old(b.V()) != 0)
      ensures ok ==> V() == old(V()) / old(b.V())
    {
      ghost var v, d := V(), b.V();
      var div := new U256.Copy(b);
      var num := new U256.Copy(this);
      Clear();
      var numBits := num.Bits();
      var divBits := div.Bits();
      if divBits == 0 { return false; }
      if divBits > numBits {
        SmallNumerator(v, d, numBits, divBits);
        return true;
      }
      var shift := numBits - divBits;
      Aligned(v, d, numBits, divBits);
      div.ShiftLeft(shift);
      ValZeroClear(pn[..], shift);
      while shift >= 0
        invariant -1 <= shift < 256 && Valid() && div.Valid() && num.Valid()
        invariant fresh(div.pn) && fresh(num.pn) && div.pn != num.pn && div.pn != pn && num.pn != pn
        invariant shift >= 0 ==> div.V() == d * Two(shift) && ClearTo(pn[..], shift)
        invariant num.V() < d * Two(shift + 1)
        invariant v == V() * d + num.V()
        decreases shift
      {
        DivStep(num, div, shift, d);
        if shift > 0 { HalveExact(d, shift); }
        div.ShiftRight(1);
        shift := shift - 1;
      }
      ok := true;
      DivModUnique(v, d, V(), num.V());
    }

    /** One bit of the quotient. */
    method DivStep(num: U256, div: U256, s: nat, ghost d: nat)
      requires Valid() && num.Valid() && div.Valid() && num.pn != pn && div.pn != pn && num.pn != div.pn && s < 256
      requires div.V() == d * Two(s) && num.V() < d * Two(s + 1) && ClearTo(pn[..], s)
      modifies pn, num.pn
      ensures Valid() && num.Valid() && num.V() < d * Two(s)
      ensures V() * d + num.V() == old(V() * d + num.V())
      ensures s > 0 ==> ClearTo(pn[..], s - 1)
    {
      hide Two;
      hide ClearTo;
      TwoNext(s, d);
      var c := num.CompareTo(div);
      if c >= 0 {
        ghost var n, q := num.V(), V();
        DivModUnique(n - div.V(), Modulus(), 0, n - div.V());
        num.Sub(div);
        SetQuotientBit(s);
        QuotientStep(q, Two(s), d);
      } else {
        ClearLower(pn[..], s);
      }
    }

    /** Set bit s of the quotient, none of whose lower bits is set. */
    method SetQuotientBit(s: nat)
      requires Valid() && s < 256 && ClearTo(pn[..], s)
      modifies pn
      ensures Valid() && V() == old(V()) + Two(s) && (s > 0 ==> ClearTo(pn[..], s - 1))
    {
      ghost var was := pn[..];
      var j, t := s / 32, s % 32;
      hide Two;
      TwoStep(t);
      OrDisjoint(pn[j], Two(t), t + 1);
      BitFits(pn[j], t);
      ghost var c := Put(j, Two(t));
      LimbPow(j);
      TwoAdd(t, 32 * j);
      assert t + 32 * j == s;
      ClearSet(was, j, t);
    }
  }

  /** The highest bit set in a limb. */
  method HighBit(x: int) returns (bits: nat)
    requires 0 < x < LIMB
    ensures bits < 32 && Two(bits) <= x < Two(bits + 1)
  {
    LimbIsTwo();
    bits := 31;
    while bits > 0
      invariant bits <= 31 && x < Two(bits + 1)
    {
      if x / Two(bits) % 2 == 1 {
        TopBit(x, bits);
        return;
      }
      ClearBit(x, bits);
      bits := bits - 1;
    }
  }

  lemma TopBit(x: nat, s: nat)
    requires x / Two(s) % 2 == 1
    ensures Two(s) <= x
  {
    if x < Two(s) {
      DivModUnique(x, Two(s), 0, x);
    }
  }

  lemma ClearBit(x: nat, s: nat)
    requires x < Two(s + 1) && x / Two(s) % 2 != 1
    ensures x < Two(s)
  {
    if Two(s) <= x {
      DivModUnique(x, Two(s), 1, x - Two(s));
    }
  }

  lemma Between(v: int, x: int, t: nat, lo: int, hi: int)
    requires 0 <= v < t && lo <= x < hi
    ensures lo * t <= v + x * t < hi * t
  {
    MulMonotone(t, lo, x);
    MulMonotone(t, x + 1, hi);
  }

  lemma LimbBits(s: seq<int>, pos: nat, bits: nat)
    requires InRange(s) && pos < |s| && Two(bits) <= s[pos] < Two(bits + 1)
    ensures Two(32 * pos + bits) <= Val(s, pos + 1) < Two(32 * pos + bits + 1)
  {
    hide Two;
    hide Pow;
    LimbPow(pos);
    ValBound(s, pos);
    TwoAdd(bits, 32 * pos);
    TwoAdd(bits + 1, 32 * pos);
    Between(Val(s, pos), s[pos], Two(32 * pos), Two(bits), Two(bits + 1));
    assert bits + 32 * pos == 32 * pos + bits && bits + 1 + 32 * pos == 32 * pos + bits + 1;
  }

  /** Adding one to limb i either adds one at its place or carries. */
  lemma IncrementLimb(s: seq<int>, i: nat, goal: int)
    requires InRange(s) && |s| == WIDTH && i < WIDTH && Val(s, WIDTH) == goal - Pow(LIMB, i)
    ensures var t := s[i := (s[i] + 1) % LIMB];
            InRange(t) && Val(t, WIDTH) == goal - if t[i] == 0 then Pow(LIMB, i + 1) else 0
  {
    var x := (s[i] + 1) % LIMB;
    ValUpdate(s, i, x, WIDTH);
    var p := Pow(LIMB, i);
    if s[i] + 1 == LIMB {
      assert (x - s[i]) * p == p - LIMB * p by { Distribute(0, LIMB - 1, p); }
    } else {
      assert (x - s[i]) * p == p;
    }
  }

  lemma ComplementStep(p: nat, x: int)
    ensures p - 1 + (LIMB - 1 - x) * p == LIMB * p - 1 - x * p
  {
  }

  lemma NegateWrap(v: int, w: int, r: int)
    requires 0 <= v < Modulus() && w == Modulus() - 1 - v && r == (w + 1) % Modulus()
    ensures r == -v % Modulus()
  {
    if v == 0 {
      DivModUnique(w + 1, Modulus(), 1, 0);
    } else {
      DivModUnique(w + 1, Modulus(), 0, w + 1);
      DivModUnique(-v, Modulus(), -1, w + 1);
    }
  }

  /** A sum may be reduced early. */
  lemma ModSum(x: int, y: int, m: nat)
    requires m > 0
    ensures (x + y % m) % m == (x + y) % m
  {
    var q, r := y / m, y % m;
    var q', r' := (x + r) / m, (x + r) % m;
    assert x + y == (q + q') * m + r';
    DivModUnique(x + y, m, q + q', r');
  }

  /** A limb product with two limbs added still fits 64 bits. */
  lemma LimbProduct(c: int, x: int, y: int, z: int)
    requires 0 <= c < LIMB && 0 <= x < LIMB && 0 <= y < LIMB && 0 <= z < LIMB
    ensures 0 <= c + z + x * y < LIMB * LIMB && (c + z + x * y) / LIMB < LIMB
  {
    MulMonotone(x, y, LIMB - 1);
    MulMonotone(x, 0, y);
    MulMonotone(LIMB - 1, x, LIMB - 1);
  }

  lemma MulStep(p: nat, n: nat, c: int, b: int, x: int, v: int)
    requires n == c + b * x
    ensures n % LIMB * p + n / LIMB * (LIMB * p) == c * p + (v + x * p) * b - v * b
  {
    Carry(p, n);
    assert n * p == c * p + b * x * p;
    assert (v + x * p) * b == v * b + x * p * b;
    MulAssoc(b, x, p);
  }

  lemma AddStep(p: nat, n: nat, c: int, x: int, y: int)
    requires n == c + x + y
    ensures n % LIMB * p + n / LIMB * (LIMB * p) == c * p + x * p + y * p
  {
    Carry(p, n);
    assert n * p == c * p + x * p + y * p;
  }

  /** Low and high part of a limb sum, each at its place. */
  lemma Carry(p: nat, n: nat)
    ensures n % LIMB * p + n / LIMB * (LIMB * p) == n * p
  {
    assert n == n / LIMB * LIMB + n % LIMB;
    MulAssoc(n / LIMB, LIMB, p);
    assert (n / LIMB * LIMB + n % LIMB) * p == n / LIMB * LIMB * p + n % LIMB * p;
  }

  // ---------- long multiplication ----------

  lemma {:induction false} ZeroLimbs(s: seq<int>, n: nat)
    requires n <= |s| && InRange(s) && Val(s, n) == 0
    ensures forall i :: 0 <= i < n ==> s[i] == 0
  {
    if n > 0 {
      ValBound(s, n - 1);
      PowPositive(LIMB, n - 1);
      if s[n - 1] > 0 { MulMonotone(Pow(LIMB, n - 1), 1, s[n - 1]); }
      ZeroLimbs(s, n - 1);
    }
  }

  lemma RowStep(s: seq<int>, i: nat, j: nat, n: nat, c: int, aj: int, t: seq<int>)
    requires |s| == WIDTH && InRange(s) && i + j < WIDTH && i < |t| && n == c + s[i + j] + aj * t[i]
    ensures var s' := s[i + j := n % LIMB];
            && InRange(s')
            && Val(s', WIDTH) + n / LIMB * Pow(LIMB, i + 1 + j) - aj * Val(t, i + 1) * Pow(LIMB, j)
               == Val(s, WIDTH) + c * Pow(LIMB, i + j) - aj * Val(t, i) * Pow(LIMB, j)
  {
    var p, x := Pow(LIMB, i + j), s[i + j];
    ValUpdate(s, i + j, n % LIMB, WIDTH);
    Carry(p, n);
    assert Pow(LIMB, i + 1 + j) == LIMB * p;
    PowAdd(LIMB, i, j);
    RowAlgebra(n, c, x, aj, t[i], Val(t, i), Pow(LIMB, i), Pow(LIMB, j), p);
  }

  lemma RowAlgebra(n: int, c: int, x: int, aj: int, ti: int, v: int, pi: int, pj: int, p: int)
    requires n == c + x + aj * ti && p == pi * pj
    ensures n * p - x * p == c * p + aj * (v + ti * pi) * pj - aj * v * pj
    ensures (n % LIMB - x) * p == n % LIMB * p - x * p
  {
    assert aj * (v + ti * pi) * pj == aj * v * pj + aj * (ti * pi) * pj;
    assert aj * (ti * pi) * pj == aj * ti * p by { MulAssoc(aj, ti, pi); MulAssoc(aj * ti, pi, pj); }
    assert n * p == c * p + x * p + aj * ti * p;
  }

  lemma SplitProduct(x: int, v: int, k: int, p: int, q: int)
    ensures x * (v + k * p) * q == x * v * q + x * k * (p * q)
  {
    MulAssoc(x, k, p);
    MulAssoc(x * k, p, q);
    assert x * (v + k * p) == x * v + x * (k * p);
  }

  /** What the row leaves out is a multiple of the modulus. */
  lemma RowWrap(t: seq<int>, j: nat, aj: int, v: int, r: int, carry: int)
    requires |t| == WIDTH && j < WIDTH && 0 <= r < Modulus()
    requires r + carry * Modulus() == v + aj * Val(t, WIDTH - j) * Pow(LIMB, j)
    ensures r == (v + aj * Val(t, WIDTH) * Pow(LIMB, j)) % Modulus()
  {
    hide Val;
    hide Pow;
    var m := WIDTH - j;
    var k := ValSplit(t, m, WIDTH);
    PowAdd(LIMB, m, j);
    var pm, pj := Pow(LIMB, m), Pow(LIMB, j);
    SplitProduct(aj, Val(t, m), k, pm, pj);
    Turns(carry, aj * k);
    WrapsTo(r, v + aj * Val(t, WIDTH) * pj, carry + aj * k);
  }

  lemma {:induction false} ValSplit(s: seq<int>, m: nat, n: nat) returns (k: int)
    requires m <= n <= |s|
    ensures Val(s, n) == Val(s, m) + k * Pow(LIMB, m)
  {
    if m == n {
      k := 0;
    } else {
      var k' := ValSplit(s, m, n - 1);
      hide Pow;
      PowAdd(LIMB, n - 1 - m, m);
      k := k' + s[n - 1] * Pow(LIMB, n - 1 - m);
      SplitTerm(k', s[n - 1], Pow(LIMB, n - 1 - m), Pow(LIMB, m));
    }
  }

  lemma SplitTerm(k: int, x: int, q: int, p: int)
    ensures (k + x * q) * p == k * p + x * (q * p)
  {
    MulAssoc(x, q, p);
  }

  lemma RowSum(v: int, x: int, f: int, p: int)
    ensures v * f + x * f * p == (v + x * p) * f
  {
    assert x * f * p == x * p * f by { MulAssoc(x, f, p); MulAssoc(x, p, f); }
  }

  // ---------- shifts ----------

  /** Splitting at d before shifting by e. */
  lemma ShiftParts(x: int, d: nat, e: nat, l: nat)
    requires d > 0 && e > 0 && d * e == l && 0 <= x < l
    ensures var hi, m := x / d, x % d;
            x * e == hi * l + m * e && 0 <= m * e < l && 0 <= hi < e
  {
    var hi, m := x / d, x % d;
    assert x == hi * d + m;
    MulAssoc(hi, d, e);
    assert (hi * d + m) * e == hi * d * e + m * e;
    MulMonotone(e, m + 1, d);
    MulMonotone(e, 0, m);
    if hi >= e { MulMonotone(d, e, hi); }
  }

  /** A limb shifted left is a carry and a limb. */
  lemma LeftParts(x: int, r: nat)
    requires 0 <= x < LIMB && r < 32
    ensures var hi, lo := if r == 0 then 0 else x / Two(32 - r), x * Two(r) % LIMB;
            x * Two(r) == hi * LIMB + lo && 0 <= hi < Two(r) && lo % Two(r) == 0 && hi < LIMB
  {
    if r > 0 {
      hide Two;
      LimbIsTwo();
      TwoAdd(32 - r, r);
      var d, e := Two(32 - r), Two(r);
      ShiftParts(x, d, e, LIMB);
      DivModUnique(x * e, LIMB, x / d, x % d * e);
      DivModUnique(x % d * e, e, x % d, 0);
      MulMonotone(e, 1, d);
    }
  }

  lemma SumFits(lo: int, x: int, r: nat)
    requires r < 32 && 0 <= lo < LIMB && lo % Two(r) == 0 && 0 <= x < Two(r)
    ensures lo + x < LIMB
  {
    hide Two;
    LimbIsTwo();
    TwoAdd(r, 32 - r);
    var e, d := Two(r), Two(32 - r);
    var q := lo / e;
    assert lo == q * e;
    if q >= d { MulMonotone(e, d, q); }
    MulMonotone(e, q + 1, d);
  }

  lemma Dropped(hi: int, j: nat) returns (c: int)
    requires hi == 0 || (hi > 0 && j >= WIDTH)
    ensures c >= 0 && c * Modulus() == hi * Pow(LIMB, j)
  {
    if hi == 0 {
      c := 0;
    } else {
      PowAdd(LIMB, j - WIDTH, WIDTH);
      MulAssoc(hi, Pow(LIMB, j - WIDTH), Modulus());
      c := hi * Pow(LIMB, j - WIDTH);
      MulMonotone(Pow(LIMB, j - WIDTH), 0, hi);
    }
  }

  lemma ShiftedSum(y: int, hi: int, lo: int, j: nat)
    requires y == hi * LIMB + lo
    ensures y * Pow(LIMB, j) == hi * Pow(LIMB, j + 1) + lo * Pow(LIMB, j)
  {
    var p := Pow(LIMB, j);
    MulAssoc(hi, LIMB, p);
    assert (hi * LIMB + lo) * p == hi * LIMB * p + lo * p;
  }

  lemma LeftStep(v: int, x: int, e: int, i: nat, k: nat)
    ensures (v + x * Pow(LIMB, i)) * e * Pow(LIMB, k) == v * e * Pow(LIMB, k) + x * e * Pow(LIMB, i + k)
  {
    PowAdd(LIMB, i, k);
    var pi, pk := Pow(LIMB, i), Pow(LIMB, k);
    assert (v + x * pi) * e == v * e + x * e * pi by { MulAssoc(x, pi, e); MulAssoc(x, e, pi); }
    MulAssoc(x * e, pi, pk);
  }

  lemma Turns(a: int, b: int)
    ensures (a + b) * Modulus() == a * Modulus() + b * Modulus()
  {
  }

  lemma LeftWrap(a: seq<int>, k: nat, r: nat, shift: nat, c: int, v: int)
    requires |a| == WIDTH && shift == 32 * k + r && 0 <= v < Modulus()
    requires v + c * Modulus() == Val(a, WIDTH) * Two(r) * Pow(LIMB, k)
    ensures v == Val(a, WIDTH) * Two(shift) % Modulus()
  {
    LimbPow(k);
    TwoAdd(r, 32 * k);
    MulAssoc(Val(a, WIDTH), Two(r), Pow(LIMB, k));
    assert r + 32 * k == shift;
    WrapsTo(v, Val(a, WIDTH) * Two(shift), c);
  }

  /** What has been shifted out when i limbs are done. */
  ghost function Shifted(a: seq<int>, i: nat, k: nat, r: nat): int
    requires i <= |a|
  {
    if i <= k then Val(a, i) else Val(a, k) + a[k] % Two(r) * Pow(LIMB, k)
  }

  lemma RightParts(x: int, r: nat)
    requires 0 <= x < LIMB && r < 32
    ensures x == x / Two(r) * Two(r) + x % Two(r) && 0 <= x / Two(r) < Two(32 - r) <= LIMB
    ensures r > 0 ==> x * Two(32 - r) % LIMB == x % Two(r) * Two(32 - r)
    ensures r == 0 ==> x % Two(r) == 0
    ensures r > 0 ==> (x % Two(r) * Two(32 - r)) % Two(32 - r) == 0
  {
    hide Two;
    LimbIsTwo();
    TwoZero();
    if r > 0 {
      TwoAdd(r, 32 - r);
      var d, e := Two(r), Two(32 - r);
      ShiftParts(x, d, e, LIMB);
      DivModUnique(x * e, LIMB, x / d, x % d * e);
      DivModUnique(x % d * e, e, x % d, 0);
      MulMonotone(e, 1, d);
    }
  }

  lemma TwoZero()
    ensures Two(0) == 1
  {
  }

  lemma ShiftedNext(a: seq<int>, i: nat, k: nat, r: nat)
    requires k <= i < |a|
    ensures Val(a, i + 1) == Val(a, i) + a[i] * Pow(LIMB, i)
    ensures Shifted(a, i + 1, k, r) == Shifted(a, i, k, r) + if i == k then a[k] % Two(r) * Pow(LIMB, k) else 0
  {
  }

  lemma RightStep(a: seq<int>, i: nat, k: nat, r: nat, v: int, v': int)
    requires k <= i < |a| && r < 32 && InRange(a)
    requires v * (Two(r) * Pow(LIMB, k)) + Shifted(a, i, k, r) == Val(a, i)
    requires v' == v + a[i] / Two(r) * Pow(LIMB, i - k)
                   + if i - k >= 1 then a[i] % Two(r) * Two(32 - r) * Pow(LIMB, i - k - 1) else 0
    ensures v' * (Two(r) * Pow(LIMB, k)) + Shifted(a, i + 1, k, r) == Val(a, i + 1)
  {
    hide Two;
    hide Val;
    hide Shifted;
    ShiftedNext(a, i, k, r);
    var x, d, pk := a[i], Two(r), Pow(LIMB, k);
    PowAdd(LIMB, i - k, k);
    if i == k {
      RightFirst(v, v', x, x / d, x % d, d, pk);
    } else {
      LimbIsTwo();
      TwoAdd(32 - r, r);
      hide Pow;
      PowNext(i - k - 1);
      RightAlgebra(v, v', x, x / d, x % d, d, pk, Pow(LIMB, i - k), Two(32 - r), Pow(LIMB, i - k - 1));
    }
  }

  lemma ValNone(s: seq<int>)
    ensures Val(s, 0) == 0 && Pow(LIMB, 0) == 1
  {
  }

  lemma ValNext(s: seq<int>, n: nat)
    requires n < |s|
    ensures Val(s, n + 1) == Val(s, n) + s[n] * Pow(LIMB, n)
  {
  }

  lemma PowNext(n: nat)
    ensures Pow(LIMB, n + 1) == LIMB * Pow(LIMB, n)
  {
  }

  lemma RightFirst(v: int, v': int, x: int, q: int, m: int, d: int, pk: int)
    requires x == q * d + m && v' == v + q
    ensures v' * (d * pk) + m * pk == v * (d * pk) + x * pk
  {
    MulAssoc(q, d, pk);
    assert (v + q) * (d * pk) == v * (d * pk) + q * (d * pk);
    assert (q * d + m) * pk == q * d * pk + m * pk;
  }

  lemma RightAlgebra(v: int, v': int, x: int, q: int, m: int, d: int, pk: int, p: int, e: int, pl: int)
    requires x == q * d + m && v' == v + q * p + m * e * pl && e * d == LIMB && p == LIMB * pl
    ensures v' * (d * pk) == v * (d * pk) + x * (p * pk)
  {
    PlaceTimes(q, p, d, pk);
    CarryTimes(m, e, pl, d, pk);
    MulAssoc(LIMB, pl, pk);
    ThreeTerms(v, q * p, m * e * pl, d * pk);
    assert (q * d + m) * (p * pk) == q * d * (p * pk) + m * (p * pk);
  }

  lemma ThreeTerms(x: int, y: int, z: int, f: int)
    ensures (x + y + z) * f == x * f + y * f + z * f
  {
  }

  lemma PlaceTimes(q: int, p: int, d: int, pk: int)
    ensures q * p * (d * pk) == q * d * (p * pk)
  {
    MulAssoc(q * p, d, pk);
    MulAssoc(q * d, p, pk);
    MulAssoc(q, p, d);
    MulAssoc(q, d, p);
  }

  lemma CarryTimes(m: int, e: int, p: int, d: int, pk: int)
    requires e * d == LIMB
    ensures m * e * p * (d * pk) == m * (LIMB * (p * pk))
  {
    PlaceTimes(m * e, p, d, pk);
    MulAssoc(m, e, d);
    MulAssoc(m, LIMB, p * pk);
  }

  lemma RightEnd(a: seq<int>, k: nat, r: nat, shift: nat, v: int)
    requires |a| == WIDTH && InRange(a) && r < 32 && shift == 32 * k + r
    requires v * (Two(r) * Pow(LIMB, k)) + Shifted(a, WIDTH, k, r) == Val(a, WIDTH)
    ensures v == Val(a, WIDTH) / Two(shift)
  {
    hide Two;
    LimbPow(k);
    TwoAdd(r, 32 * k);
    assert r + 32 * k == shift;
    hide Pow;
    var d := Two(r) * Pow(LIMB, k);
    PowPositive(LIMB, k);
    if WIDTH <= k {
      ValBound(a, WIDTH);
      PowMonotone(LIMB, WIDTH, k);
      MulMonotone(Pow(LIMB, k), 1, Two(r));
    } else {
      ValBound(a, k);
      MulMonotone(Pow(LIMB, k), 0, a[k] % Two(r));
      Between(Val(a, k), a[k] % Two(r), Pow(LIMB, k), 0, Two(r));
    }
    DivModUnique(Val(a, WIDTH), d, v, Shifted(a, WIDTH, k, r));
  }

  // ---------- division ----------

  /** Bits 0 to s are clear. */
  ghost predicate ClearTo(pn: seq<int>, s: nat) {
    && |pn| == WIDTH && s / 32 < WIDTH && (forall j :: 0 <= j < s / 32 ==> pn[j] == 0)
    && pn[s / 32] % Two(s % 32 + 1) == 0
  }

  lemma ValZeroClear(pn: seq<int>, s: nat)
    requires |pn| == WIDTH && s < 256 && forall j :: 0 <= j < WIDTH ==> pn[j] == 0
    ensures ClearTo(pn, s)
  {
    hide Two;
    ZeroMod(Two(s % 32 + 1));
  }

  lemma ZeroMod(n: nat)
    requires n > 0
    ensures 0 % n == 0
  {
  }

  /** Bits below s are clear. */
  lemma ClearBelow(pn: seq<int>, j: nat, t: nat)
    requires |pn| == WIDTH && j < WIDTH && t < 32 && 32 * j + t > 0
    requires (forall i :: 0 <= i < j ==> pn[i] == 0) && pn[j] % Two(t) == 0
    ensures ClearTo(pn, 32 * j + t - 1)
  {
    hide Two;
    var s := 32 * j + t - 1;
    if t == 0 {
      assert s / 32 == j - 1 && s % 32 == 31;
      ZeroMod(Two(32));
    } else {
      assert s / 32 == j && s % 32 == t - 1;
    }
  }

  lemma ClearLower(pn: seq<int>, s: nat)
    requires s < 256 && ClearTo(pn, s)
    ensures s > 0 ==> ClearTo(pn, s - 1)
  {
    hide Two;
    var x, t := pn[s / 32], s % 32;
    TwoStep(t);
    MultipleDown(x, Two(t), Two(t + 1));
    if s > 0 { ClearBelow(pn, s / 32, t); }
  }

  lemma TwoStep(t: nat)
    ensures Two(t + 1) == 2 * Two(t)
  {
  }

  lemma TwoNext(s: nat, d: int)
    ensures d * Two(s + 1) == d * Two(s) + d * Two(s)
  {
  }

  lemma MultipleDown(x: int, t: nat, u: nat)
    requires t > 0 && u == 2 * t && x % u == 0
    ensures x % t == 0 && (x + t) % t == 0
  {
    var q := x / u;
    assert x == q * u == 2 * q * t;
    DivModUnique(x, t, 2 * q, 0);
    DivModUnique(x + t, t, 2 * q + 1, 0);
  }

  lemma ClearSet(pn: seq<int>, j: nat, t: nat)
    requires |pn| == WIDTH && j < WIDTH && t < 32
    requires (forall i :: 0 <= i < j ==> pn[i] == 0) && pn[j] % Two(t + 1) == 0
    ensures 32 * j + t > 0 ==> ClearTo(pn[j := pn[j] + Two(t)], 32 * j + t - 1)
  {
    hide Two;
    hide ClearTo;
    TwoStep(t);
    MultipleDown(pn[j], Two(t), Two(t + 1));
    if 32 * j + t > 0 { ClearBelow(pn[j := pn[j] + Two(t)], j, t); }
  }

  lemma SmallNumerator(v: int, d: int, n: nat, m: nat)
    requires 0 <= v < Two(n) && m > n && Two(m - 1) <= d
    ensures v / d == 0
  {
    TwoAdd(n, m - 1 - n);
    MulMonotone(Two(n), 1, Two(m - 1 - n));
    DivModUnique(v, d, 0, v);
  }

  /** The divisor shifted up to the numerator loses no bits. */
  lemma Aligned(v: int, d: int, n: nat, m: nat)
    requires 0 <= v < Two(n) && (n > 0 ==> Two(n - 1) <= v) && 0 < m <= n <= 256 && Two(m - 1) <= d < Two(m)
    ensures d * Two(n - m) % Modulus() == d * Two(n - m) && v < d * Two(n - m + 1)
  {
    hide Two;
    LimbPow(WIDTH);
    TwoAdd(m, n - m);
    MulMonotone(Two(n - m), d, Two(m));
    MulMonotone(Two(n - m), 0, d);
    TwoAdd(n, 256 - n);
    MulMonotone(Two(n), 1, Two(256 - n));
    MulMonotone(Two(n - m), d + 1, Two(m));
    DivModUnique(d * Two(n - m), Modulus(), 0, d * Two(n - m));
    TwoAdd(m - 1, n - m + 1);
    MulMonotone(Two(n - m + 1), Two(m - 1), d);
  }

  lemma QuotientStep(q: int, t: int, d: int)
    ensures (q + t) * d == q * d + d * t
  {
  }

  lemma HalveExact(d: int, s: nat)
    requires s > 0
    ensures d * Two(s) / Two(1) == d * Two(s - 1)
  {
    assert d * Two(s) == 2 * (d * Two(s - 1));
  }

  lemma BitFits(x: int, t: nat)
    requires t < 32 && 0 <= x < LIMB && x % Two(t + 1) == 0
    ensures x + Two(t) < LIMB
  {
    if t < 31 {
      SumFits(x, Two(t), t + 1);
    } else {
      LimbIsTwo();
      DivModUnique(x, LIMB, 0, x);
    }
  }
}
