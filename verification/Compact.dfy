/**
 The compact form of a difficulty target: a size in bytes, a sign bit and a mantissa of 23 bits in one
 32-bit number.
 */
module Compact {
  import opened Numbers
  import opened Limbs
  import opened Arith256

  const SIGN: nat := 0x80_0000
  const SIZE_UNIT: nat := 0x100_0000

  // ---------- what a compact number stands for ----------

  function Word(nCompact: nat): nat {
    nCompact % SIGN
  }

  function Size(nCompact: nat): nat {
    nCompact / SIZE_UNIT
  }

  predicate Negative(nCompact: nat) {
    nCompact / SIGN % 2 == 1
  }

  /** mantissa * 256^(size - 3), rounded down */
  ghost function Target(nCompact: nat): nat {
    PowPositive(256, 3);
    if Size(nCompact) <= 3 then Down(Word(nCompact), 3 - Size(nCompact))
    else Word(nCompact) * Pow(256, Size(nCompact) - 3)
  }

  /** x / 256^n */
  ghost function Down(x: nat, n: nat): nat {
    PowPositive(256, n);
    x / Pow(256, n)
  }

  // ---------- the compact form of a number ----------

  /** The number of bytes needed to write v. */
  ghost function ByteSize(v: nat): nat {
    if v == 0 then 0 else 1 + ByteSize(v / 256)
  }

  /** The three most significant bytes. */
  ghost function Leading(v: nat): nat {
    if ByteSize(v) <= 3 then v * Pow(256, 3 - ByteSize(v)) else Down(v, ByteSize(v) - 3)
  }

  /** A mantissa that would reach the sign bit gives up a byte. */
  ghost function CompactOf(v: nat): nat {
    if Leading(v) < SIGN then ByteSize(v) * SIZE_UNIT + Leading(v)
    else (ByteSize(v) + 1) * SIZE_UNIT + Leading(v) / 256
  }

  lemma {:induction false} ByteSizeBound(v: nat)
    ensures v < Pow(256, ByteSize(v)) && (v > 0 ==> Pow(256, ByteSize(v) - 1) <= v)
  {
    if v > 0 {
      ByteSizeBound(v / 256);
      var p := Pow(256, ByteSize(v / 256));
      assert v < 256 * p;
    }
  }

  lemma ByteSizeUnique(v: nat, n: nat)
    requires v < Pow(256, n) && (n > 0 ==> Pow(256, n - 1) <= v)
    ensures ByteSize(v) == n
  {
    ByteSizeBound(v);
    PowPositive(256, n);
    if n > 0 { PowPositive(256, n - 1); }
    if ByteSize(v) < n {
      PowMonotone(256, ByteSize(v), n - 1);
    } else if ByteSize(v) > n {
      PowMonotone(256, n, ByteSize(v) - 1);
    }
  }

  lemma PowThree()
    ensures Pow(256, 0) == 1 && Pow(256, 1) == 256 && Pow(256, 2) == 0x1_0000 && Pow(256, 3) == SIZE_UNIT
  {
    assert Pow(256, 1) == 256 * Pow(256, 0);
    assert Pow(256, 2) == 256 * Pow(256, 1);
    assert Pow(256, 3) == 256 * Pow(256, 2);
  }

  /** A positive number has a mantissa of two bytes or more. */
  lemma LeadingBound(v: nat)
    ensures Leading(v) < SIZE_UNIT && (v > 0 ==> 0x1_0000 <= Leading(v))
  {
    hide Pow;
    PowThree();
    ByteSizeBound(v);
    var n := ByteSize(v);
    if n <= 3 {
      PowAdd(256, n, 3 - n);
      MulMonotone(Pow(256, 3 - n), v + 1, Pow(256, n));
      PowPositive(256, 3 - n);
      if v > 0 {
        PowAdd(256, n - 1, 3 - n);
        MulMonotone(Pow(256, 3 - n), Pow(256, n - 1), v);
      }
    } else {
      PowAdd(256, 3, n - 3);
      PowAdd(256, 2, n - 3);
      PowPositive(256, n - 3);
      DivBetween(v, Pow(256, n - 3), 0x1_0000, SIZE_UNIT);
    }
  }

  lemma DivBetween(v: nat, d: nat, lo: nat, hi: nat)
    requires d > 0 && lo * d <= v < hi * d
    ensures lo <= v / d < hi
  {
    var q, r := v / d, v % d;
    assert v == q * d + r;
    if q < lo { MulMonotone(d, q + 1, lo); }
    if q >= hi { MulMonotone(d, hi, q); }
  }

  // ---------- encoding rounds down, and only once ----------

  lemma Parts(size: nat, m: nat)
    requires m < SIGN
    ensures Size(size * SIZE_UNIT + m) == size && Word(size * SIZE_UNIT + m) == m && !Negative(size * SIZE_UNIT + m)
  {
  }

  lemma DownDown(x: nat, a: nat, b: nat)
    ensures Down(Down(x, a), b) == Down(x, a + b)
  {
    PowAdd(256, a, b);
    var p, q := Pow(256, a), Pow(256, b);
    PowPositive(256, a);
    PowPositive(256, b);
    hide Pow;
    DivDiv(x, p, q);
  }

  lemma DownUp(x: nat, n: nat)
    ensures Down(x * Pow(256, n), n) == x
  {
    PowPositive(256, n);
    DivModUnique(x * Pow(256, n), Pow(256, n), x, 0);
  }

  /** The number of bytes that encoding cuts off. */
  ghost function Cut(v: nat): nat {
    var n := if Leading(v) < SIGN then ByteSize(v) else ByteSize(v) + 1;
    if n <= 3 then 0 else n - 3
  }

  lemma CutLess(v: nat)
    ensures Leading(v) < SIGN ==> Target(CompactOf(v)) == Down(v, Cut(v)) * Pow(256, Cut(v))
  {
    hide Pow;
    PowThree();
    var n := ByteSize(v);
    if Leading(v) < SIGN {
      Parts(n, Leading(v));
      if n <= 3 {
        DownUp(v, 3 - n);
      }
    }
  }

  lemma CutMore(v: nat)
    ensures Leading(v) >= SIGN ==> Target(CompactOf(v)) == Down(v, Cut(v)) * Pow(256, Cut(v))
  {
    hide Pow;
    PowThree();
    LeadingBound(v);
    var n := ByteSize(v);
    if Leading(v) >= SIGN {
      Parts(n + 1, Leading(v) / 256);
      if n <= 2 {
        PowAdd(256, 2 - n, 1);
        assert 2 - n + 1 == 3 - n;
        MulAssoc(v, Pow(256, 2 - n), 256);
        DownUp(v, 2 - n);
      } else if n == 3 {
        assert Leading(v) == v;
        assert Down(v, 1) == v / 256;
      } else {
        DownDown(v, n - 3, 1);
      }
    }
  }

  /** Encoding cuts off the low bytes and nothing else. */
  lemma CompactRounds(v: nat)
    ensures Target(CompactOf(v)) == Down(v, Cut(v)) * Pow(256, Cut(v))
    ensures Target(CompactOf(v)) <= v < Target(CompactOf(v)) + Pow(256, Cut(v))
    ensures !Negative(CompactOf(v))
  {
    hide Pow;
    hide Leading;
    hide Cut;
    hide Target;
    CutLess(v);
    CutMore(v);
    CompactParts(v);
    PowPositive(256, Cut(v));
    RoundDown(v, Pow(256, Cut(v)));
  }

  lemma RoundDown(v: nat, d: nat)
    requires d > 0
    ensures v / d * d <= v < v / d * d + d
  {
  }

  /** Size and mantissa of the compact form. */
  lemma CompactParts(v: nat)
    ensures var c := CompactOf(v);
            && Word(c) == (if Leading(v) < SIGN then Leading(v) else Leading(v) / 256)
            && Size(c) == (if Leading(v) < SIGN then ByteSize(v) else ByteSize(v) + 1)
            && !Negative(c) && c == Size(c) * SIZE_UNIT + Word(c)
  {
    LeadingBound(v);
    hide Leading;
    if Leading(v) < SIGN { Parts(ByteSize(v), Leading(v)); } else { Parts(ByteSize(v) + 1, Leading(v) / 256); }
  }

  /** What has been encoded once is encoded exactly. */
  lemma CompactStable(v: nat)
    ensures CompactOf(Target(CompactOf(v))) == CompactOf(v)
  {
    hide Pow;
    CompactRounds(v);
    LeadingBound(v);
    PowThree();
    PowPositive(256, Cut(v));
    var n, q := ByteSize(v), Down(v, Cut(v));
    if Cut(v) == 0 {
      assert q == v;
    } else if Leading(v) < SIGN {
      StableLess(n, q);
    } else {
      assert q == Leading(v) / 256 by {
        if n > 3 { DownDown(v, n - 3, 1); }
      }
      StableMore(n, q);
    }
  }

  lemma StableLess(n: nat, q: nat)
    requires n > 3 && 0x1_0000 <= q < SIGN
    ensures ByteSize(q * Pow(256, n - 3)) == n && Leading(q * Pow(256, n - 3)) == q
  {
    hide Pow;
    PowThree();
    var p := Pow(256, n - 3);
    PowAdd(256, 3, n - 3);
    PowAdd(256, 2, n - 3);
    PowPositive(256, n - 3);
    MulMonotone(p, 0x1_0000, q);
    MulMonotone(p, q + 1, SIZE_UNIT);
    ByteSizeUnique(q * p, n);
    DownUp(q, n - 3);
  }

  lemma StableMore(n: nat, q: nat)
    requires n >= 3 && 0x8000 <= q < 0x1_0000
    ensures ByteSize(q * Pow(256, n - 2)) == n && Leading(q * Pow(256, n - 2)) == 256 * q
  {
    hide Pow;
    PowThree();
    var p := Pow(256, n - 2);
    PowAdd(256, 2, n - 2);
    PowAdd(256, 1, n - 2);
    PowAdd(256, 1, n - 3);
    PowPositive(256, n - 2);
    MulMonotone(p, 0x100, q);
    MulMonotone(p, q + 1, 0x1_0000);
    ByteSizeUnique(q * p, n);
    if n > 3 {
      assert q * p == 256 * q * Pow(256, n - 3) by { MulAssoc(q, 256, Pow(256, n - 3)); }
      DownUp(256 * q, n - 3);
    }
  }

  // ---------- the methods ----------

  lemma {:induction false} BytePow(n: nat)
    ensures Pow(256, n) == Two(8 * n)
  {
    if n > 0 {
      BytePow(n - 1);
      TwoAdd(8, 8 * (n - 1));
      assert Two(8) == 256;
    }
  }

  lemma ModulusBytes()
    ensures Modulus() == Pow(256, 32)
  {
    hide Pow;
    LimbPow(WIDTH);
    BytePow(32);
  }

  lemma FitsBelow(word: nat, e: nat)
    requires word < SIGN && e <= 29
    ensures word * Pow(256, e) < Pow(256, 32)
  {
    hide Pow;
    PowThree();
    PowAdd(256, 3, 29);
    PowMonotone(256, e, 29);
    PowPositive(256, 29);
    Smaller(word, Pow(256, e), SIZE_UNIT, Pow(256, 29));
  }

  lemma Smaller(x: nat, a: nat, y: nat, b: nat)
    requires x < y && a <= b && b > 0
    ensures x * a < y * b
  {
    MulMonotone(x, a, b);
    MulMonotone(b, x + 1, y);
  }

  lemma FitsUpTo(word: nat, e: nat)
    requires e <= 32
    ensures word * Pow(256, e) >= Pow(256, 32) <==> word >= Pow(256, 32 - e)
  {
    hide Pow;
    PowAdd(256, 32 - e, e);
    PowPositive(256, e);
    Against(word, Pow(256, 32 - e), Pow(256, e));
  }

  lemma FitsNever(word: nat, e: nat)
    requires e >= 32 && word > 0
    ensures word * Pow(256, e) >= Pow(256, 32)
  {
    hide Pow;
    PowMonotone(256, 32, e);
    MulMonotone(Pow(256, e), 1, word);
  }

  /** The three tests for overflow are exact. */
  lemma OverflowExact(word: nat, size: nat)
    requires word < SIGN && size > 3
    ensures word * Pow(256, size - 3) >= Pow(256, 32)
       <==> word != 0 && (size > 34 || (word > 0xff && size > 33) || (word > 0xffff && size > 32))
  {
    hide Pow;
    PowThree();
    PowPositive(256, 32);
    if size <= 32 {
      FitsBelow(word, size - 3);
    } else if size <= 34 {
      FitsUpTo(word, size - 3);
    } else if word > 0 {
      FitsNever(word, size - 3);
    }
  }

  lemma Against(x: nat, y: nat, p: nat)
    requires p > 0
    ensures x * p >= y * p <==> x >= y
  {
    if x >= y { MulMonotone(p, y, x); } else { MulMonotone(p, x + 1, y); }
  }

  /** Set a number from its compact form. */
  method SetCompact(x: U256, nCompact: nat) returns (negative: bool, overflow: bool)
    requires x.Valid() && nCompact < LIMB
    modifies x.pn
    ensures x.Valid() && x.V() == Target(nCompact) % Modulus()
    ensures overflow <==> Target(nCompact) >= Modulus()
    ensures !overflow ==> x.V() == Target(nCompact)
    ensures negative <==> Target(nCompact) != 0 && Negative(nCompact)
  {
    hide Pow;
    hide Two;
    PowThree();
    ModulusBytes();
    var nSize, nWord := nCompact / SIZE_UNIT, nCompact % SIGN;
    if nSize <= 3 {
      BytePow(3 - nSize);
      nWord := nWord / Two(8 * (3 - nSize));
      DownSmall(nCompact % SIGN, 3 - nSize);
      x.Assign(nWord);
      PowMonotone(256, 3, 32);
    } else {
      x.Assign(nWord);
      x.ShiftLeft(8 * (nSize - 3));
      BytePow(nSize - 3);
      OverflowExact(nWord, nSize);
      NonZeroProduct(nWord, Pow(256, nSize - 3));
      PowPositive(256, nSize - 3);
    }
    negative := nWord != 0 && nCompact / SIGN % 2 == 1;
    overflow := nWord != 0 && (nSize > 34 || (nWord > 0xff && nSize > 33) || (nWord > 0xffff && nSize > 32));
    if !overflow {
      DivModUnique(Target(nCompact), Modulus(), 0, Target(nCompact));
    }
  }

  lemma DownSmall(w: nat, n: nat)
    ensures Down(w, n) <= w
  {
    PowPositive(256, n);
    DivBetween(w, Pow(256, n), 0, w + 1);
  }

  lemma NonZeroProduct(x: nat, p: nat)
    ensures p > 0 ==> (x * p == 0 <==> x == 0)
  {
    if x > 0 { MulMonotone(p, 1, x); }
  }

  /** The lowest 64 bits. */
  method GetLow64(x: U256) returns (r: nat)
    requires x.Valid()
    ensures r == x.V() % (LIMB * LIMB) && (x.V() < LIMB * LIMB ==> r == x.V())
  {
    var lo, hi := x.pn[0], x.pn[1];
    TwoLimbsOr(lo, hi);
    hide Or;
    hide Val;
    r := Or(lo, hi * LIMB);
    LowLimbs(x.pn[..]);
  }

  lemma TwoLimbsOr(lo: nat, hi: nat)
    requires lo < LIMB && hi < LIMB
    ensures Or(lo, hi * LIMB) == lo + hi * LIMB
  {
    hide Two;
    LimbIsTwo();
    DivModUnique(hi * LIMB, LIMB, hi, 0);
    OrDisjoint(hi * LIMB, lo, 32);
  }

  lemma LowLimbs(s: seq<int>)
    requires |s| == WIDTH && InRange(s)
    ensures var v, r := Val(s, WIDTH), s[0] + s[1] * LIMB;
            r == v % (LIMB * LIMB) && (v < LIMB * LIMB ==> r == v)
  {
    hide Val;
    hide Pow;
    var k := ValSplit(s, 2, WIDTH);
    TwoLimbs(s);
    ValBound(s, WIDTH);
    LowPart(Val(s, WIDTH), s[0] + s[1] * LIMB, k);
  }

  lemma TwoLimbs(s: seq<int>)
    requires |s| >= 2
    ensures Val(s, 2) == s[0] + s[1] * LIMB && Pow(LIMB, 2) == LIMB * LIMB
  {
    assert Val(s, 1) == Val(s, 0) + s[0] * Pow(LIMB, 0);
    assert Val(s, 2) == Val(s, 1) + s[1] * Pow(LIMB, 1);
    assert Pow(LIMB, 1) == LIMB * Pow(LIMB, 0);
    assert Pow(LIMB, 2) == LIMB * Pow(LIMB, 1);
  }

  lemma LowPart(v: int, r: int, k: int)
    requires 0 <= r < LIMB * LIMB && v == r + k * (LIMB * LIMB)
    ensures r == v % (LIMB * LIMB) && (0 <= v < LIMB * LIMB ==> r == v)
  {
    DivModUnique(v, LIMB * LIMB, k, r);
  }

  lemma BytesOfBits(v: nat, bits: nat)
    requires v < Two(bits) && (bits > 0 ==> Two(bits - 1) <= v)
    ensures ByteSize(v) == (bits + 7) / 8
  {
    var n := (bits + 7) / 8;
    hide Two;
    BytePow(n);
    TwoAdd(bits, 8 * n - bits);
    MulMonotone(Two(bits), 1, Two(8 * n - bits));
    if bits > 0 {
      BytePow(n - 1);
      TwoAdd(8 * (n - 1), bits - 1 - 8 * (n - 1));
      MulMonotone(Two(8 * (n - 1)), 1, Two(bits - 1 - 8 * (n - 1)));
    }
    ByteSizeUnique(v, n);
  }

  /** The compact form of a number. */
  method GetCompact(x: U256, fNegative: bool) returns (nCompact: nat)
    requires x.Valid()
    ensures nCompact == CompactOf(x.V()) + if fNegative && Word(CompactOf(x.V())) != 0 then SIGN else 0
    ensures nCompact < LIMB
  {
    hide Or;
    hide CompactOf;
    hide Two;
    hide Pow;
    var nSize, m := SizeAndMantissa(x);
    OrSize(m, nSize);
    nCompact := Or(m, nSize * SIZE_UNIT);
    Parts(nSize, m);
    OrSign(nCompact);
    nCompact := Or(nCompact, if fNegative && nCompact % SIGN != 0 then SIGN else 0);
  }

  method SizeAndMantissa(x: U256) returns (nSize: nat, m: nat)
    requires x.Valid()
    ensures nSize * SIZE_UNIT + m == CompactOf(x.V()) && m < SIGN && nSize < 256
  {
    hide Pow;
    hide Two;
    hide Leading;
    hide ByteSize;
    var bits := x.Bits();
    BytesOfBits(x.V(), bits);
    LeadingBound(x.V());
    nSize := (bits + 7) / 8;
    m := LeadingBytes(x, nSize);
    if m / SIGN % 2 == 1 {
      m := m / 256;
      nSize := nSize + 1;
    }
  }

  method LeadingBytes(x: U256, nSize: nat) returns (m: nat)
    requires x.Valid() && nSize == ByteSize(x.V())
    ensures m == Leading(x.V())
  {
    hide Pow;
    hide Two;
    hide ByteSize;
    ghost var v := x.V();
    PowThree();
    ByteSizeBound(v);
    LeadingBound(v);
    if nSize <= 3 {
      PowMonotone(256, nSize, 3);
      var low := GetLow64(x);
      BytePow(3 - nSize);
      m := low * Two(8 * (3 - nSize));
    } else {
      var bn := new U256.Copy(x);
      BytePow(nSize - 3);
      bn.ShiftRight(8 * (nSize - 3));
      m := GetLow64(bn);
    }
  }

  lemma SizeUnitIsTwo()
    ensures Two(24) == SIZE_UNIT && Two(23) == SIGN
  {
    assert Two(8) == 256;
    TwoAdd(8, 8);
    TwoAdd(16, 8);
    assert Two(24) == 2 * Two(23);
  }

  lemma OrSize(m: nat, n: nat)
    requires m < SIGN
    ensures Or(m, n * SIZE_UNIT) == n * SIZE_UNIT + m
  {
    hide Two;
    SizeUnitIsTwo();
    DivModUnique(n * SIZE_UNIT, SIZE_UNIT, n, 0);
    OrDisjoint(n * SIZE_UNIT, m, 24);
  }

  /** The sign bit of a compact number without sign is free. */
  lemma OrSign(c: nat)
    requires c / SIGN % 2 == 0
    ensures Or(c, SIGN) == c + SIGN && Or(c, 0) == c
  {
    hide Two;
    SizeUnitIsTwo();
    OrBit(c, 23);
  }

  /** A target is stored in compact form, restored, and stored again. */
  method StoreTwice(x: U256) returns (first: nat, second: nat, negative: bool, overflow: bool)
    requires x.Valid()
    modifies x.pn
    ensures x.Valid() && !negative && !overflow && second == first
    ensures x.V() <= old(x.V()) < x.V() + Pow(256, Cut(old(x.V())))
  {
    hide CompactOf;
    hide Target;
    hide Cut;
    hide Pow;
    CompactRounds(x.V());
    CompactStable(x.V());
    first := GetCompact(x, false);
    negative, overflow := SetCompact(x, first);
    second := GetCompact(x, false);
  }
}
