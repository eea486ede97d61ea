/** What the compact form of a target promises: the best approximation from below, in its shortest form. */
module CompactLaws {
  import opened Numbers
  import opened Compact

  /** Encoding that cuts bytes off leaves a mantissa of at least fifteen bits. */
  lemma CutMantissa(v: nat)
    requires Cut(v) > 0
    ensures Down(v, Cut(v)) >= 0x8000 && Target(CompactOf(v)) == Down(v, Cut(v)) * Pow(256, Cut(v))
  {
    hide Pow;
    CompactRounds(v);
    LeadingBound(v);
    PowThree();
    var n := ByteSize(v);
    if Leading(v) >= SIGN && n > 3 {
      DownDown(v, n - 3, 1);
    }
  }

  lemma UncutExact(v: nat)
    requires Cut(v) == 0
    ensures Target(CompactOf(v)) == v
  {
    hide Pow;
    CompactRounds(v);
    PowThree();
  }

  /** A target of size s has fewer than 8 s bits. */
  lemma TargetBound(c: nat)
    ensures Size(c) > 3 ==> Target(c) < SIGN * Pow(256, Size(c) - 3)
    ensures Size(c) <= 3 ==> Target(c) < SIGN
  {
    hide Pow;
    hide Down;
    hide Size;
    if Size(c) <= 3 {
      DownSmall(Word(c), 3 - Size(c));
    } else {
      PowPositive(256, Size(c) - 3);
      Smaller(Word(c), Pow(256, Size(c) - 3), SIGN, Pow(256, Size(c) - 3));
    }
  }

  /** A multiple of d above q d is at least (q + 1) d. */
  lemma NextMultiple(t: nat, q: nat, d: nat)
    requires t * d > q * d
    ensures t * d >= q * d + d
  {
    if t <= q { MulMonotone(d, t, q); }
    MulMonotone(d, q + 1, t);
  }

  /** A compact number with a smaller exponent stays below what was encoded. */
  lemma SmallerExponent(v: nat, c: nat)
    requires Cut(v) > 0 && (Size(c) <= 3 || Size(c) - 3 < Cut(v))
    ensures Target(c) < Target(CompactOf(v))
  {
    hide Pow;
    hide Target;
    hide Cut;
    CutMantissa(v);
    TargetBound(c);
    var k, q := Cut(v), Down(v, Cut(v));
    var p := Pow(256, k - 1);
    assert Pow(256, k) == 256 * p by { PowOne(k); }
    PowPositive(256, k - 1);
    assert q * (256 * p) >= SIGN * p by { MulAssoc(q, 256, p); MulMonotone(p, SIGN, q * 256); }
    if Size(c) <= 3 {
      MulMonotone(SIGN, 1, p);
    } else {
      PowMonotone(256, Size(c) - 3, k - 1);
      MulMonotone(SIGN, Pow(256, Size(c) - 3), p);
    }
  }

  lemma PowOne(k: nat)
    requires k > 0
    ensures Pow(256, k) == 256 * Pow(256, k - 1)
  {
  }

  /** A compact number with at least this exponent is a multiple of the last place. */
  lemma LargerExponent(v: nat, c: nat)
    requires Cut(v) > 0 && Size(c) > 3 && Size(c) - 3 >= Cut(v) && Target(c) <= v
    ensures Target(c) <= Target(CompactOf(v))
  {
    hide Pow;
    hide Cut;
    CompactRounds(v);
    var k, e := Cut(v), Size(c) - 3;
    PowAdd(256, e - k, k);
    var t, d := Word(c) * Pow(256, e - k), Pow(256, k);
    assert Target(c) == t * d by { MulAssoc(Word(c), Pow(256, e - k), d); }
    PowPositive(256, e - k);
    MulMonotone(Pow(256, e - k), 0, Word(c));
    if t * d > Down(v, k) * d {
      NextMultiple(t, Down(v, k), d);
    }
  }

  /** No compact number comes closer to a target from below than its compact form. */
  lemma BestBelow(v: nat, c: nat)
    requires Target(c) <= v
    ensures Target(c) <= Target(CompactOf(v)) <= v
  {
    hide Pow;
    hide Target;
    hide CompactOf;
    hide Cut;
    CompactRounds(v);
    if Cut(v) == 0 {
      UncutExact(v);
    } else if Size(c) <= 3 || Size(c) - 3 < Cut(v) {
      SmallerExponent(v, c);
    } else {
      LargerExponent(v, c);
    }
  }

  /** The mantissa reaches the sign bit exactly when the leading byte has its top bit set. */
  lemma SignReached(v: nat)
    requires v > 0
    ensures Leading(v) >= SIGN <==> 2 * v >= Pow(256, ByteSize(v))
  {
    hide Pow;
    PowThree();
    ByteSizeBound(v);
    var n := ByteSize(v);
    if n <= 3 {
      PowAdd(256, n, 3 - n);
      PowPositive(256, 3 - n);
      Against(2 * v, Pow(256, n), Pow(256, 3 - n));
    } else {
      var d := Pow(256, n - 3);
      PowAdd(256, 3, n - 3);
      PowPositive(256, n - 3);
      AtLeast(v, d, SIGN);
    }
  }

  lemma AtLeast(v: nat, d: nat, m: nat)
    requires d > 0
    ensures v / d >= m <==> v >= m * d
  {
    var q, r := v / d, v % d;
    assert v == q * d + r;
    if q >= m { MulMonotone(d, m, q); } else { MulMonotone(d, q + 1, m); }
  }

  /** A compact number of size s stands for less than 256^s / 2. */
  lemma HalfOfSize(c: nat)
    ensures 2 * Target(c) < Pow(256, Size(c)) || Target(c) == 0
  {
    hide Pow;
    PowThree();
    var s := Size(c);
    if s > 3 {
      TargetBound(c);
      PowAdd(256, 3, s - 3);
    } else {
      PowAdd(256, s, 3 - s);
      PowPositive(256, 3 - s);
      AtLeast(Word(c), Pow(256, 3 - s), Target(c));
      if 2 * Target(c) >= Pow(256, s) {
        MulMonotone(Pow(256, 3 - s), Pow(256, s), 2 * Target(c));
        MulAssoc(2, Target(c), Pow(256, 3 - s));
      }
    }
  }

  /** Among the compact numbers for the same target, the one that is made has the smallest size. */
  lemma SmallestSize(v: nat, c: nat)
    requires Target(c) == Target(CompactOf(v))
    ensures Size(c) >= Size(CompactOf(v))
  {
    hide Pow;
    hide Leading;
    hide Target;
    hide CompactOf;
    var t := Target(c);
    CompactStable(v);
    CompactParts(t);
    HalfOfSize(c);
    ByteSizeBound(t);
    if t == 0 {
      NoLeading();
    } else {
      SignReached(t);
      var n := ByteSize(t);
      if Size(c) < n {
        PowMonotone(256, Size(c), n - 1);
      } else if Size(c) == n && Leading(t) >= SIGN {
        assert false;
      }
    }
  }

  lemma NoLeading()
    ensures ByteSize(0) == 0 && Leading(0) == 0
  {
  }

  /** The sign given to a target comes back, unless the target is zero. */
  lemma SignBack(v: nat, fNegative: bool)
    ensures var c := CompactOf(v) + if fNegative && Word(CompactOf(v)) != 0 then SIGN else 0;
            Target(c) == Target(CompactOf(v)) && (Negative(c) <==> fNegative && v > 0)
  {
    hide Pow;
    hide Leading;
    hide CompactOf;
    CompactParts(v);
    LeadingBound(v);
    if v == 0 { NoLeading(); }
    var m, s := Word(CompactOf(v)), Size(CompactOf(v));
    SignedParts(s, m);
  }

  lemma SignedParts(s: nat, m: nat)
    requires m < SIGN
    ensures var c := s * SIZE_UNIT + m + SIGN; Word(c) == m && Size(c) == s && Negative(c)
    ensures var c := s * SIZE_UNIT + m; Word(c) == m && Size(c) == s && !Negative(c)
  {
  }

  lemma SmallPowers()
    ensures Pow(256, 0) == 1 && Pow(256, 1) == 0x100 && Pow(256, 2) == 0x1_0000 && Pow(256, 3) == 0x100_0000
    ensures Pow(256, 4) == 0x1_0000_0000
  {
    PowThree();
    assert Pow(256, 4) == 256 * Pow(256, 3);
  }

  /** The examples of the tests, read. */
  lemma ReadExamples()
    ensures Target(0) == 0 && Target(0x00123456) == 0 && Target(0x01003456) == 0 && Target(0x02000056) == 0
    ensures Target(0x03000000) == 0 && Target(0x04000000) == 0 && Target(0x04800000) == 0
    ensures Target(0x01123456) == 0x12 && Target(0x02123456) == 0x1234 && Target(0x03123456) == 0x123456
    ensures Target(0x04123456) == 0x12345600 && Target(0x05009234) == 0x92340000
    ensures Target(0x01fedcba) == 0x7e && Negative(0x01fedcba) && Target(0x04923456) == 0x12345600
    ensures Negative(0x04923456) && !Negative(0x04123456)
  {
    hide Pow;
    SmallPowers();
  }

  lemma Written(v: nat, n: nat)
    requires v < Pow(256, n) && (n > 0 ==> Pow(256, n - 1) <= v)
    ensures n <= 3 ==> Leading(v) == v * Pow(256, 3 - n)
    ensures n > 3 ==> Leading(v) == Down(v, n - 3)
    ensures Leading(v) < SIGN ==> CompactOf(v) == n * SIZE_UNIT + Leading(v)
    ensures Leading(v) >= SIGN ==> CompactOf(v) == (n + 1) * SIZE_UNIT + Leading(v) / 256
  {
    hide Pow;
    ByteSizeUnique(v, n);
  }

  /** The examples of the tests, written. */
  lemma WriteExamples()
    ensures CompactOf(0) == 0 && CompactOf(0x12) == 0x01120000 && CompactOf(0x80) == 0x02008000
    ensures CompactOf(0x1234) == 0x02123400 && CompactOf(0x123456) == 0x03123456
    ensures CompactOf(0x12345600) == 0x04123456 && CompactOf(0x92340000) == 0x05009234
  {
    hide Pow;
    hide CompactOf;
    hide Leading;
    SmallPowers();
    Written(0, 0);
    Written(0x12, 1);
    Written(0x80, 1);
    Written(0x1234, 2);
    Written(0x123456, 3);
    Written(0x12345600, 4);
    Written(0x92340000, 4);
  }
}
