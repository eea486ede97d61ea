/**
 The heights that skip pointers lead to, and how many steps the walk along them takes. A walk from
 m + x down to t, where m is the last block above t whose height ends in d zeros, first gets rid of
 the bits of x, then steps below m, where all d low bits are set.
 */
module SkipList {
  import opened Numbers
  import opened Limbs

  // ---------- skip heights ----------

  /** Bitwise and. */
  function And(x: nat, y: nat): nat
    decreases x
  {
    if x == 0 then 0 else (if x % 2 == 1 && y % 2 == 1 then 1 else 0) + 2 * And(x / 2, y / 2)
  }

  /** The value of the lowest bit that is set. */
  function LowestOne(n: nat): nat
    requires n > 0
  {
    if n % 2 == 1 then 1 else 2 * LowestOne(n / 2)
  }

  function InvertLowestOne(n: nat): nat {
    if n == 0 then 0 else And(n, n - 1)
  }

  lemma {:induction false} AndSelf(n: nat)
    ensures And(n, n) == n
  {
    if n > 0 {
      AndSelf(n / 2);
    }
  }

  lemma {:induction false} InvertClears(n: nat)
    requires n > 0
    ensures InvertLowestOne(n) == n - LowestOne(n) && 0 < LowestOne(n) <= n
  {
    if n % 2 == 1 {
      AndSelf(n / 2);
      assert (n - 1) / 2 == n / 2;
    } else {
      InvertClears(n / 2);
      assert (n - 1) / 2 == n / 2 - 1;
    }
  }

  /** The height a block's skip pointer leads to. */
  function GetSkipHeight(height: nat): nat {
    if height < 2 then 0
    else if height % 2 == 1 then InvertLowestOne(InvertLowestOne(height - 1)) + 1
    else InvertLowestOne(height)
  }

  lemma SkipsBack(height: nat)
    requires height > 0
    ensures GetSkipHeight(height) < height
  {
    if height >= 2 {
      if height % 2 == 1 {
        InvertClears(height - 1);
        var n := InvertLowestOne(height - 1);
        if n > 0 { InvertClears(n); }
      } else {
        InvertClears(height);
      }
    }
  }

  // ---------- the walk ----------

  /** Whether the walk to height t follows the skip pointer at height w. */
  predicate Jumps(w: nat, t: nat)
    requires w > 0
  {
    var heightSkip, heightSkipPrev := GetSkipHeight(w), GetSkipHeight(w - 1);
    heightSkip == t || (heightSkip > t && !(heightSkipPrev < heightSkip - 2 && heightSkipPrev >= t))
  }

  ghost function Next(w: nat, t: nat): (r: nat)
    requires t < w
    ensures t <= r < w
  {
    SkipsBack(w);
    if Jumps(w, t) then GetSkipHeight(w) else w - 1
  }

  /** The number of steps from height w to height t. */
  ghost function Steps(w: nat, t: nat): nat
    requires t <= w
    decreases w
  {
    if t == w then 0 else 1 + Steps(Next(w, t), t)
  }

  // ---------- bits ----------

  /** The number of bits that are set. */
  ghost function Pop(n: nat): nat {
    if n == 0 then 0 else n % 2 + Pop(n / 2)
  }

  /** A multiple of 2^d. */
  ghost predicate Aligned(m: nat, d: nat) {
    d == 0 || (m % 2 == 0 && Aligned(m / 2, d - 1))
  }

  /** An odd multiple of 2^d. */
  ghost predicate Peak(m: nat, d: nat) {
    if d == 0 then m % 2 == 1 else m % 2 == 0 && Peak(m / 2, d - 1)
  }

  lemma {:induction false} PeakAligned(m: nat, d: nat)
    requires Peak(m, d)
    ensures Aligned(m, d) && m >= Two(d) && LowestOne(m) == Two(d) && Aligned(m - Two(d), d + 1)
  {
    if d > 0 {
      PeakAligned(m / 2, d - 1);
      assert (m - Two(d)) / 2 == m / 2 - Two(d - 1);
    } else {
      assert Two(0) == 1 && Aligned((m - 1) / 2, 0);
    }
  }

  lemma {:induction false} AlignedPeak(b: nat, d: nat)
    requires Aligned(b, d + 1)
    ensures Peak(b + Two(d), d) && Aligned(b, d)
  {
    if d > 0 {
      AlignedPeak(b / 2, d - 1);
      assert (b + Two(d)) / 2 == b / 2 + Two(d - 1);
    }
  }

  lemma {:induction false} AlignedSum(b: nat, d: nat)
    requires Aligned(b, d)
    ensures Aligned(b + Two(d), d)
  {
    if d > 0 {
      AlignedSum(b / 2, d - 1);
      assert (b + Two(d)) / 2 == b / 2 + Two(d - 1);
    }
  }

  lemma {:induction false} AlignedLow(b: nat, d: nat)
    requires Aligned(b, d) && b > 0
    ensures LowestOne(b) >= Two(d) && b >= Two(d)
  {
    InvertClears(b);
    if d > 0 {
      AlignedLow(b / 2, d - 1);
    }
  }

  /** Low bits are cleared without touching the high ones. */
  lemma {:induction false} LowFirst(m: nat, d: nat, x: nat)
    requires Aligned(m, d) && 0 < x < Two(d)
    ensures LowestOne(m + x) == LowestOne(x)
  {
    if x % 2 == 0 {
      assert (m + x) / 2 == m / 2 + x / 2;
      LowFirst(m / 2, d - 1, x / 2);
    }
  }

  lemma InvertLow(m: nat, d: nat, x: nat)
    requires Aligned(m, d) && 0 < x < Two(d)
    ensures InvertLowestOne(m + x) == m + InvertLowestOne(x) && InvertLowestOne(x) < x
  {
    LowFirst(m, d, x);
    InvertClears(m + x);
    InvertClears(x);
  }

  lemma {:induction false} PopInvert(x: nat)
    requires x > 0
    ensures Pop(InvertLowestOne(x)) == Pop(x) - 1 && (x % 2 == 0 ==> InvertLowestOne(x) % 2 == 0)
  {
    InvertClears(x);
    if x % 2 == 1 {
      assert InvertLowestOne(x) / 2 == x / 2;
    } else {
      PopInvert(x / 2);
      InvertClears(x / 2);
      assert InvertLowestOne(x) / 2 == InvertLowestOne(x / 2);
    }
  }

  lemma {:induction false} PopZero(x: nat)
    ensures Pop(x) == 0 <==> x == 0
  {
    if x > 0 {
      PopZero(x / 2);
    }
  }

  lemma {:induction false} PopBound(x: nat, d: nat)
    requires x < Two(d)
    ensures Pop(x) <= d && (x % 2 == 0 && d > 0 ==> Pop(x) <= d - 1)
  {
    if d > 0 {
      PopBound(x / 2, d - 1);
    }
  }

  lemma {:induction false} PopOnes(d: nat)
    requires d > 0
    ensures Pop(Two(d) - 2) == d - 1
  {
    if d > 1 {
      PopOnes(d - 1);
      var x := Two(d - 1) - 2;
      assert (Two(d) - 2) / 2 == x + 1;
      assert (x + 1) / 2 == x / 2 && Pop(x + 1) == 1 + Pop(x / 2);
    }
  }

  // ---------- one stretch of the walk ----------

  lemma Skipped(w: nat, t: nat)
    requires t < w && Jumps(w, t)
    ensures t <= GetSkipHeight(w) < w && Steps(w, t) == 1 + Steps(GetSkipHeight(w), t)
  {
    SkipsBack(w);
  }

  lemma SteppedDown(w: nat, t: nat)
    requires t < w && !Jumps(w, t)
    ensures Steps(w, t) == 1 + Steps(w - 1, t)
  {
  }

  lemma OddSkipHeight(w: nat)
    requires w % 2 == 1 && w >= 3
    ensures GetSkipHeight(w) == InvertLowestOne(InvertLowestOne(w - 1)) + 1
  {
  }

  lemma EvenSkipHeight(w: nat)
    requires w % 2 == 0 && w >= 2
    ensures GetSkipHeight(w) == InvertLowestOne(w)
  {
  }

  /** At an odd height the skip pointer is followed whenever it does not lead too far. */
  lemma OddJumps(w: nat, t: nat)
    requires w % 2 == 1 && w >= 3
    ensures Jumps(w, t) <==> GetSkipHeight(w) >= t
  {
    var y := InvertLowestOne(w - 1);
    if y > 0 { InvertClears(y); }
  }

  /** At an even height the skip pointer of the block before can be better. */
  lemma EvenJumps(w: nat, t: nat, p: nat)
    requires w % 2 == 0 && w >= 2 && GetSkipHeight(w) > t && p == GetSkipHeight(w - 1)
    ensures Jumps(w, t) <==> !(p < GetSkipHeight(w) - 2 && p >= t)
  {
  }

  lemma PeakFacts(m: nat, d: nat)
    requires Peak(m, d)
    ensures Aligned(m, d) && m >= Two(d) && InvertLowestOne(m) == m - Two(d)
    ensures d > 0 ==> m % 2 == 0 && Two(d) >= 2
    ensures InvertLowestOne(m - Two(d)) <= m - Two(d)
    ensures m > Two(d) ==> InvertLowestOne(m - Two(d)) + 1 < m - Two(d)
    ensures m == Two(d) ==> InvertLowestOne(m - Two(d)) == 0
  {
    PeakAligned(m, d);
    InvertClears(m);
    var b := m - Two(d);
    if b > 0 {
      AlignedLow(b, d + 1);
      InvertClears(b);
    }
  }

  lemma WidthOf(d: nat, x: nat)
    requires 0 < x < Two(d)
    ensures d > 0
  {
  }

  /** Where the skip pointer of an odd height leads. */
  lemma OddSkip(m: nat, d: nat, x: nat)
    requires Peak(m, d) && x % 2 == 1 && x < Two(d)
    ensures d > 0 && m >= Two(d) && (m + x) % 2 == 1 && m + x >= 3
    ensures Pop(x - 1) >= 2 ==>
              var y := InvertLowestOne(InvertLowestOne(x - 1));
              GetSkipHeight(m + x) == m + y + 1 && y % 2 == 0 && y + 1 < x && Pop(y) == Pop(x - 1) - 2
    ensures Pop(x - 1) == 1 ==> GetSkipHeight(m + x) == m - Two(d) + 1
    ensures Pop(x - 1) == 0 ==> x == 1 && GetSkipHeight(m + x) == InvertLowestOne(m - Two(d)) + 1
  {
    hide *;
    WidthOf(d, x);
    PeakFacts(m, d);
    PopZero(x - 1);
    OddSkipHeight(m + x);
    if x > 1 {
      InvertLow(m, d, x - 1);
      PopInvert(x - 1);
      var y := InvertLowestOne(x - 1);
      PopZero(y);
      if y > 0 {
        InvertLow(m, d, y);
        PopInvert(y);
      }
    }
  }

  /** From the peak itself: straight to the target if the skip pointer leads there, else one down. */
  lemma TopWalk(m: nat, d: nat, t: nat)
    requires Peak(m, d) && d > 0 && m >= Two(d) && m - Two(d) <= t < m
    ensures t == m - Two(d) ==> Steps(m, t) == 1
    ensures t > m - Two(d) ==> Steps(m, t) == 1 + Steps(m - 1, t)
  {
    PeakFacts(m, d);
    EvenSkipHeight(m);
    hide And;
    hide InvertLowestOne;
    hide GetSkipHeight;
    hide Peak;
  }

  /** A single bit above the peak goes in one step. */
  lemma SingleBit(m: nat, d: nat, y: nat, t: nat)
    requires Peak(m, d) && m >= Two(d) && 0 < y < Two(d) && y % 2 == 0 && Pop(y) == 1 && m - Two(d) + 1 < t < m
    ensures Steps(m + y, t) == 1 + Steps(m, t)
  {
    hide *;
    PeakFacts(m, d);
    InvertLow(m, d, y);
    PopInvert(y);
    PopZero(InvertLowestOne(y));
    OddSkip(m, d, y - 1);
    EvenSkipHeight(m + y);
    EvenJumps(m + y, t, GetSkipHeight(m + (y - 1)));
    Skipped(m + y, t);
  }

  lemma OneStep(t: nat)
    ensures Steps(t + 1, t) == 1
  {
  }

  lemma Arrived(t: nat)
    ensures Steps(t, t) == 0
  {
  }

  /** From an odd height: two bits a step, then past the peak. */
  lemma {:induction false} OddWalk(m: nat, d: nat, x: nat, t: nat, r: nat)
    requires Peak(m, d) && m >= Two(d) && x % 2 == 1 && x < Two(d) && m - Two(d) <= t < m
    requires t > m - Two(d) + Pop(x - 1) % 2 ==> Steps(m - 1, t) <= r
    ensures Steps(m + x, t) <= (Pop(x - 1) + 1) / 2 + 2 + r
    ensures t > m - Two(d) + 1 ==> Steps(m + x, t) == (Pop(x - 1) + 1) / 2 + 2 + Steps(m - 1, t)
    decreases x
  {
    hide *;
    var n := Pop(x - 1);
    OddSkip(m, d, x);
    OddJumps(m + x, t);
    if n >= 2 {
      var y := InvertLowestOne(InvertLowestOne(x - 1));
      Skipped(m + x, t);
      assert m + y + 1 == m + (y + 1) && y + 1 - 1 == y;
      OddWalk(m, d, y + 1, t, r);
    } else if n == 1 {
      PassOneBit(m, d, x, t);
    } else {
      PassNoBit(m, d, t);
    }
  }

  lemma PassOneBit(m: nat, d: nat, x: nat, t: nat)
    requires Peak(m, d) && m >= Two(d) && x % 2 == 1 && x < Two(d) && m - Two(d) <= t < m && Pop(x - 1) == 1
    ensures t <= m - Two(d) + 1 ==> Steps(m + x, t) <= 2
    ensures t > m - Two(d) + 1 ==> Steps(m + x, t) == 3 + Steps(m - 1, t)
  {
    hide *;
    OddSkip(m, d, x);
    OddJumps(m + x, t);
    PopZero(x - 1);
    if t > m - Two(d) + 1 {
      SteppedDown(m + x, t);
      assert m + x - 1 == m + (x - 1);
      SingleBit(m, d, x - 1, t);
      TopWalk(m, d, t);
    } else {
      Skipped(m + x, t);
      OneStep(m - Two(d));
      Arrived(t);
    }
  }

  lemma PassNoBit(m: nat, d: nat, t: nat)
    requires Peak(m, d) && d > 0 && m >= Two(d) && m - Two(d) <= t < m
    ensures t > m - Two(d) + 1 ==> Steps(m + 1, t) == 2 + Steps(m - 1, t)
    ensures t == m - Two(d) + 1 ==> Steps(m + 1, t) <= 2 + Steps(m - 1, t)
    ensures t == m - Two(d) ==> Steps(m + 1, t) <= 2
  {
    hide *;
    PopZero(0);
    PeakFacts(m, d);
    OddSkip(m, d, 1);
    OddJumps(m + 1, t);
    TopWalk(m, d, t);
    if Jumps(m + 1, t) {
      Skipped(m + 1, t);
      OneStep(0);
      Arrived(t);
    } else {
      SteppedDown(m + 1, t);
    }
  }

  /** Every number but zero is an odd multiple of a power of two. */
  ghost function Zeros(x: nat): (j: nat)
    requires x > 0
    ensures Peak(x, j)
  {
    if x % 2 == 1 then 0 else 1 + Zeros(x / 2)
  }

  lemma {:induction false} PeakHighest(x: nat, j: nat, d: nat)
    requires Peak(x, j) && Aligned(x, d)
    ensures d <= j
  {
    if d > 0 { PeakHighest(x / 2, j - 1, d - 1); }
  }

  lemma {:induction false} AlignedLess(h: nat, j: nat, d: nat)
    requires Aligned(h, j) && d <= j
    ensures Aligned(h, d)
  {
    if d > 0 {
      AlignedLess(h / 2, j - 1, d - 1);
    }
  }

  lemma AlignedEven(h: nat, d: nat)
    requires Aligned(h, d) && d > 0
    ensures h % 2 == 0
  {
  }

  /** The lowest bit of an even number is bit 1, bit 2 or higher. */
  lemma EvenCases(x: nat)
    requires x % 2 == 0
    ensures Aligned(x, 3) || (x >= 4 && Aligned(x - 4, 3)) || (x >= 2 && Aligned(x - 2, 2))
  {
    var y := x / 2;
    if y % 2 == 1 {
      assert (x - 2) / 2 == y - 1 && Aligned((y - 1) / 2, 0) && Aligned(y - 1, 1);
    } else {
      var z := y / 2;
      if z % 2 == 1 {
        assert (x - 4) / 2 == y - 2 && (y - 2) / 2 == z - 1 && Aligned((z - 1) / 2, 0) && Aligned(z - 1, 1);
        assert Aligned(y - 2, 2);
      } else {
        assert Aligned(z / 2, 0) && Aligned(z, 1) && Aligned(y, 2);
      }
    }
  }

  lemma SmallBits()
    ensures InvertLowestOne(2) == 0 && InvertLowestOne(4) == 0 && Pop(2) == 1 && Pop(4) == 1
    ensures Two(2) == 4 && Two(3) == 8
  {
    InvertClears(2);
    InvertClears(4);
  }

  /** Below a multiple of 8 there are two more bits to clear. */
  lemma HighBits(x: nat)
    requires x > 0 && Aligned(x, 3)
    ensures Aligned(InvertLowestOne(x), 3) && InvertLowestOne(x) <= x - 8
    ensures InvertLowestOne(InvertLowestOne(x - 2)) >= InvertLowestOne(x)
    ensures Pop(x - 2) >= 2
  {
    hide *;
    var j := Zeros(x);
    PeakHighest(x, j, 3);
    PeakFacts(x, j);
    var h := x - Two(j);
    PeakAligned(x, j);
    AlignedLess(h, j + 1, 3);
    AlignedLess(h, j + 1, j);
    SmallBits();
    TwoGrows(3, j);
    PopOnes(j);
    var z := Two(j) - 2;
    assert x - 2 == h + z;
    InvertLow(h, j, z);
    PopInvert(z);
    PopZero(InvertLowestOne(z));
    InvertLow(h, j, InvertLowestOne(z));
    PopAbove(h, j, z);
  }

  lemma {:induction false} TwoGrows(a: nat, b: nat)
    requires a <= b
    ensures Two(a) <= Two(b)
  {
    if a < b { TwoGrows(a, b - 1); }
  }

  lemma {:induction false} PopAbove(h: nat, j: nat, z: nat)
    requires Aligned(h, j) && z < Two(j)
    ensures Pop(h + z) == Pop(h) + Pop(z)
  {
    if j > 0 {
      assert (h + z) / 2 == h / 2 + z / 2;
      PopAbove(h / 2, j - 1, z / 2);
    }
  }

  /** From a multiple of 8 above the peak: one bit a step. */
  lemma {:induction false} EightWalk(m: nat, d: nat, x: nat, t: nat)
    requires Peak(m, d) && d > 0 && m >= Two(d) && x < Two(d) && Aligned(x, 3) && m - Two(d) <= t < m
    ensures Steps(m + x, t) == Pop(x) + Steps(m, t)
    decreases x
  {
    hide *;
    PopZero(x);
    if x > 0 {
      PeakFacts(m, d);
      HighBits(x);
      AlignedEven(x, 3);
      InvertLow(m, d, x);
      PopInvert(x);
      EvenSkipHeight(m + x);
      OddSkip(m, d, x - 1);
      assert x - 1 - 1 == x - 2 && m + (x - 1) == m + x - 1;
      EvenJumps(m + x, t, GetSkipHeight(m + (x - 1)));
      Skipped(m + x, t);
      EightWalk(m, d, InvertLowestOne(x), t);
    }
  }

  /** Bits of h + 2 and h + 4 over a multiple of 8. */
  lemma OverEight(h: nat)
    requires Aligned(h, 3)
    ensures h % 2 == 0 && InvertLowestOne(h + 4) == h && InvertLowestOne(h + 2) == h
    ensures Pop(h + 2) == Pop(h + 4) == Pop(h) + 1
    ensures h > 0 ==> Pop(h) > 0 && InvertLowestOne(h) + 8 <= h
  {
    hide *;
    SmallBits();
    AlignedEven(h, 3);
    InvertLow(h, 3, 4);
    InvertLow(h, 3, 2);
    PopAbove(h, 3, 2);
    PopAbove(h, 3, 4);
    PopZero(h);
    if h > 0 { HighBits(h); }
  }

  /** With bit 2 the lowest above the peak. */
  lemma FourWalk(m: nat, d: nat, h: nat, t: nat, r: nat)
    requires Peak(m, d) && d > 0 && m >= Two(d) && h + 4 < Two(d) && Aligned(h, 3) && m - Two(d) <= t < m
    requires t > m - Two(d) ==> Steps(m - 1, t) <= r
    ensures Steps(m + (h + 4), t) <= (Pop(h + 2) + 1) / 2 + 3 + r
  {
    hide *;
    OverEight(h);
    PeakFacts(m, d);
    var w, s := m + (h + 4), m + h;
    InvertLow(m, d, h + 4);
    EvenSkipHeight(w);
    OddSkip(m, d, h + 3);
    assert h + 3 - 1 == h + 2 && m + (h + 3) == w - 1;
    EvenJumps(w, t, GetSkipHeight(w - 1));
    if Jumps(w, t) {
      Skipped(w, t);
      if h > 0 { assert false; }
      TopWalk(m, d, t);
    } else {
      SteppedDown(w, t);
      OddWalk(m, d, h + 3, t, r);
    }
  }

  /** Bits of h + 2 over a multiple of 4. */
  lemma OverFour(h: nat)
    requires Aligned(h, 2)
    ensures h % 2 == 0 && InvertLowestOne(h + 2) == h
    ensures Pop(h) >= 2 ==> InvertLowestOne(InvertLowestOne(h)) + 3 < h
  {
    hide *;
    SmallBits();
    AlignedEven(h, 2);
    InvertLow(h, 2, 2);
    if Pop(h) >= 2 {
      PopZero(h);
      AlignedLow(h, 2);
      InvertClears(h);
      PopInvert(h);
      PopZero(InvertLowestOne(h));
      InvertClears(InvertLowestOne(h));
    }
  }

  /** With bit 1 the lowest above the peak. */
  lemma TwoWalk(m: nat, d: nat, h: nat, t: nat, r: nat)
    requires Peak(m, d) && d > 0 && m >= Two(d) && h + 2 < Two(d) && Aligned(h, 2) && m - Two(d) <= t < m
    requires t > m - Two(d) ==> Steps(m - 1, t) <= r
    ensures Steps(m + (h + 2), t) <= 5 + r || Steps(m + (h + 2), t) <= (Pop(h) + 1) / 2 + 3 + r
  {
    hide *;
    OverFour(h);
    PeakFacts(m, d);
    var w := m + (h + 2);
    InvertLow(m, d, h + 2);
    EvenSkipHeight(w);
    OddSkip(m, d, h + 1);
    assert h + 1 - 1 == h && m + (h + 1) == w - 1;
    EvenJumps(w, t, GetSkipHeight(w - 1));
    if Jumps(w, t) {
      Skipped(w, t);
      if Pop(h) >= 2 { assert false; }
      FewBits(m, d, h, t, r);
    } else {
      SteppedDown(w, t);
      OddWalk(m, d, h + 1, t, r);
    }
  }

  lemma FewBits(m: nat, d: nat, h: nat, t: nat, r: nat)
    requires Peak(m, d) && d > 0 && m >= Two(d) && h < Two(d) && Aligned(h, 2) && Pop(h) < 2 && m - Two(d) <= t < m
    requires t > m - Two(d) ==> Steps(m - 1, t) <= r
    ensures Steps(m + h, t) <= 4 + r
  {
    hide *;
    TopWalk(m, d, t);
    FourCases(h);
    if Aligned(h, 3) {
      EightWalk(m, d, h, t);
    } else {
      OverEight(h - 4);
      assert h - 4 + 4 == h && h - 4 + 2 == h - 2;
      FourWalk(m, d, h - 4, t, r);
    }
  }

  lemma FourCases(x: nat)
    requires Aligned(x, 2)
    ensures Aligned(x, 3) || (x >= 4 && Aligned(x - 4, 3))
  {
    var y := x / 2;
    var z := y / 2;
    assert Aligned(y, 1) && y % 2 == 0;
    if z % 2 == 1 {
      assert (x - 4) / 2 == y - 2 && (y - 2) / 2 == z - 1 && Aligned((z - 1) / 2, 0) && Aligned(z - 1, 1);
      assert Aligned(y - 2, 2);
    } else {
      assert Aligned(z / 2, 0) && Aligned(z, 1) && Aligned(y, 2);
    }
  }

  /** The most steps from above a peak to below it, on top of those below. */
  ghost function Above(d: nat): nat {
    if d < 9 then 7 else d - 2
  }

  lemma {:induction false} PopAligned(x: nat, d: nat, a: nat)
    requires x < Two(d) && Aligned(x, a) && x > 0
    ensures a < d && Pop(x) <= d - a
  {
    if a > 0 {
      assert d > 0 && x / 2 < Two(d - 1);
      PopAligned(x / 2, d - 1, a - 1);
    } else {
      PopBound(x, d);
      assert d > 0;
    }
  }

  lemma AboveWalk(m: nat, d: nat, x: nat, t: nat, r: nat)
    requires Peak(m, d) && d > 0 && m >= Two(d) && x < Two(d) && m - Two(d) <= t < m
    requires t > m - Two(d) ==> Steps(m - 1, t) <= r
    ensures Steps(m + x, t) <= Above(d) + r
  {
    hide *;
    AboveCovers(d);
    TopWalk(m, d, t);
    if x % 2 == 1 {
      PopBound(x - 1, d);
      OddWalk(m, d, x, t, r);
    } else {
      EvenCases(x);
      if Aligned(x, 3) {
        if x > 0 { PopAligned(x, d, 3); }
        PopZero(x);
        EightWalk(m, d, x, t);
      } else {
        PopBound(x - 2, d);
        if x >= 4 && Aligned(x - 4, 3) {
          assert x - 4 + 4 == x && x - 4 + 2 == x - 2;
          FourWalk(m, d, x - 4, t, r);
        } else {
          TwoWalk(m, d, x - 2, t, r);
        }
      }
    }
  }

  lemma AboveCovers(d: nat)
    ensures 7 <= Above(d) && d - 2 <= Above(d) && d / 2 + 3 <= Above(d)
  {
  }

  // ---------- the whole walk ----------

  /** The most steps down from a height that ends in d set bits to one that differs in these only. */
  ghost function Ones(d: nat): nat {
    if d < 3 then d else if d == 3 then 4 else Ones(d - 1) + (d - 1) / 2 + 2
  }

  /** From all bits set, past the highest of them. */
  lemma OnesPeak(b: nat, d: nat, t: nat, r: nat)
    requires d > 0 && Aligned(b, d + 1) && b <= t < b + Two(d)
    requires t > b + (d - 1) % 2 ==> Steps(b + Two(d) - 1, t) <= r
    ensures Steps(b + Two(d + 1) - 1, t) <= d / 2 + 2 + r
    ensures t > b + 1 ==> Steps(b + Two(d + 1) - 1, t) == d / 2 + 2 + Steps(b + Two(d) - 1, t)
  {
    hide *;
    AlignedPeak(b, d);
    Doubled(d);
    PopOnes(d);
    var m, x := b + Two(d), Two(d) - 1;
    assert x - 1 == Two(d) - 2 && m + x == b + Two(d + 1) - 1;
    OddWalk(m, d, x, t, r);
  }

  lemma Doubled(d: nat)
    ensures Two(d + 1) == Two(d) + Two(d) && (d > 0 ==> Two(d) % 2 == 0)
  {
  }

  lemma {:induction false} OnesWalk(b: nat, d: nat, t: nat)
    requires Aligned(b, d) && b <= t < b + Two(d)
    ensures Steps(b + Two(d) - 1, t) <= Ones(d)
    decreases d
  {
    hide *;
    OnesSmall();
    if d == 0 {
      Arrived(t);
    } else {
      OnesFrom(b, d - 1);
      if d >= 3 { OnesNext(d); }
      var m := b + Two(d - 1);
      if t >= m {
        OnesWalk(m, d - 1, t);
      } else if d == 1 {
        OneStep(b);
      } else if d == 2 {
        Arrived(b + 1);
        OnesPeak(b, d - 1, t, 0);
      } else if d == 3 {
        if t > b + 1 { OnesUpper(b, t); }
        OnesPeak(b, d - 1, t, 1);
      } else {
        OnesWalk(b, d - 1, t);
        OnesPeak(b, d - 1, t, Ones(d - 1));
      }
    }
  }

  lemma OnesSmall()
    ensures Ones(0) == 0 && Ones(1) == 1 && Ones(2) == 2 && Two(0) == 1 && Two(1) == 2 && Two(2) == 4
  {
  }

  lemma OnesFrom(b: nat, d: nat)
    requires Aligned(b, d + 1)
    ensures Aligned(b, d) && Aligned(b + Two(d), d) && Two(d + 1) == Two(d) + Two(d)
    ensures Ones(d) <= Ones(d + 1)
  {
    AlignedPeak(b, d);
    AlignedSum(b, d);
  }

  lemma OnesUpper(b: nat, t: nat)
    requires b + 2 <= t <= b + 3
    ensures Steps(b + 3, t) <= 1
  {
    OneStep(b + 2);
    Arrived(b + 3);
  }

  /** The number of steps within heights that differ in the last d bits only. */
  lemma {:induction false} Within(b: nat, d: nat, w: nat, t: nat)
    requires Aligned(b, d) && b <= t <= w < b + Two(d)
    ensures d > 0 ==> Steps(w, t) <= Above(d - 1) + Ones(d - 1)
    decreases d
  {
    if d > 0 {
      OnesFrom(b, d - 1);
      if d > 1 { AboveGrows(d - 2); }
      hide *;
      var m := b + Two(d - 1);
      if t < m <= w {
        AcrossPeak(b, d - 1, w, t);
      } else if d > 1 {
        Within(if w < m then b else m, d - 1, w, t);
      } else {
        Arrived(t);
      }
    }
  }

  lemma AboveGrows(d: nat)
    ensures Above(d) + Ones(d) <= Above(d + 1) + Ones(d + 1)
  {
  }

  lemma AcrossPeak(b: nat, d: nat, w: nat, t: nat)
    requires Aligned(b, d + 1) && b <= t < b + Two(d) <= w < b + Two(d) + Two(d)
    ensures Steps(w, t) <= Above(d) + Ones(d)
  {
    hide *;
    OnesFrom(b, d);
    AlignedPeak(b, d);
    if d == 0 {
      OnesSmall();
      AboveCovers(0);
      OneStep(b);
    } else {
      OnesWalk(b, d, t);
      AboveWalk(b + Two(d), d, w - (b + Two(d)), t, Ones(d));
    }
  }

  ghost function Quarter(k: nat): nat {
    k * k / 4
  }

  lemma DivFour(x: int, q: int, r: int)
    requires x == 4 * q + r && 0 <= r < 4
    ensures x / 4 == q
  {
  }

  lemma QuarterStep(k: nat)
    requires k > 0
    ensures Quarter(k) == Quarter(k - 1) + k / 2
  {
    var h := k / 2;
    if k % 2 == 0 {
      Square(h, 0);
      Square(h - 1, 1);
      DivFour(k * k, h * h, 0);
      DivFour((k - 1) * (k - 1), (h - 1) * (h - 1) + (h - 1), 1);
      assert (h - 1) * (h - 1) == h * h - 2 * h + 1;
    } else {
      Square(h, 1);
      Square(h, 0);
      DivFour(k * k, h * h + h, 1);
      DivFour((k - 1) * (k - 1), h * h, 0);
    }
  }

  lemma Square(h: int, r: int)
    requires 0 <= r < 2
    ensures (2 * h + r) * (2 * h + r) == 4 * (h * h + h * r) + r
  {
  }

  lemma {:induction false} OnesClosed(d: nat)
    requires d >= 3
    ensures Ones(d) == Quarter(d - 1) + 2 * (d - 1) - 1
  {
    if d > 3 {
      OnesClosed(d - 1);
      QuarterStep(d - 1);
    }
  }

  /** The limit on the number of steps for heights up to 2^k. */
  ghost function MostSteps(k: nat): int {
    k * k / 4 + 2 * k - 7
  }

  lemma {:induction false} AlignedZero(d: nat)
    ensures Aligned(0, d)
  {
    if d > 0 { AlignedZero(d - 1); }
  }

  lemma LimitSteps(k: nat)
    requires k >= 10
    ensures Above(k - 1) + Ones(k - 1) == MostSteps(k) && 1 + Ones(k) <= MostSteps(k)
  {
    QuarterStep(k);
    QuarterStep(k - 1);
    OnesClosed(k - 1);
    OnesClosed(k);
    assert MostSteps(k) == Quarter(k) + 2 * k - 7;
    hide Quarter;
    hide MostSteps;
    hide Ones;
  }

  /** Walking back from a height of at most 2^k takes at most k^2 / 4 + 2 k - 7 steps. */
  lemma StepsBound(k: nat, w: nat, t: nat)
    requires k >= 10 && t <= w <= Two(k)
    ensures Steps(w, t) <= MostSteps(k)
  {
    hide *;
    LimitSteps(k);
    AlignedZero(k + 1);
    OnesFrom(0, k);
    if w < Two(k) {
      Within(0, k, w, t);
    } else if t == w {
      Arrived(t);
    } else {
      AlignedPeak(0, k);
      OnesWalk(0, k, t);
      TopWalk(w, k, t);
    }
  }

  lemma FromEights(d: nat)
    requires d >= 3
    ensures Two(d) >= 8 && Steps(Two(d) + (Two(d) - 8), 2) == d - 2 + Ones(d)
  {
    hide *;
    OnesReached(d);
    AlignedZero(d + 1);
    AlignedPeak(0, d);
    EightsBelow(d);
    assert 0 + Two(d) == Two(d);
    EightWalk(Two(d), d, Two(d) - 8, 2);
    TopWalk(Two(d), d, 2);
  }

  /** That many steps are needed from 2^k - 8 to height 2. */
  lemma StepsReached(k: nat)
    requires k >= 10
    ensures Two(k) >= 10 && Steps(Two(k) - 8, 2) == MostSteps(k)
  {
    hide *;
    FromEights(k - 1);
    Doubled(k - 1);
    AboveHigh(k - 1);
    LimitSteps(k);
  }

  lemma AboveHigh(d: nat)
    requires d >= 9
    ensures Above(d) == d - 2
  {
  }

  lemma {:induction false} EightsBelow(d: nat)
    requires d >= 3
    ensures Two(d) >= 8 && Aligned(Two(d) - 8, 3) && Pop(Two(d) - 8) == d - 3
  {
    hide *;
    SmallBits();
    TwoGrows(3, d);
    if d > 3 {
      EightsBelow(d - 1);
      Doubled(d - 1);
      var x := Two(d - 1) - 8;
      assert Two(d) - 8 == 2 * (x + 4);
      OverEight(x);
      TwiceFour(x);
    } else {
      AlignedZero(3);
      PopZero(0);
    }
  }

  lemma TwiceFour(x: nat)
    requires Aligned(x, 3)
    ensures Aligned(2 * (x + 4), 3) && Pop(2 * (x + 4)) == Pop(x + 4)
  {
    var y := x + 4;
    assert 2 * y / 2 == y && y / 2 == x / 2 + 2;
    assert Aligned(x / 2, 2) && x / 2 % 2 == 0 && Aligned(y / 2 / 2, 0) && Aligned(y / 2, 1) && Aligned(y, 2);
  }

  lemma {:induction false} OnesReached(d: nat)
    requires d >= 3
    ensures Two(d) >= 8 && Steps(Two(d) - 1, 2) == Ones(d)
  {
    hide *;
    SmallBits();
    TwoGrows(3, d);
    AlignedZero(d);
    Doubled(d - 1);
    OnesNext(d);
    if d > 3 {
      TwoGrows(3, d - 1);
      OnesReached(d - 1);
    } else {
      OneStep(2);
    }
    OnesPeak(0, d - 1, 2, Steps(0 + Two(d - 1) - 1, 2));
  }

  lemma OnesNext(d: nat)
    requires d >= 3
    ensures Ones(d) == (if d == 3 then 1 else Ones(d - 1)) + (d - 1) / 2 + 2
  {
  }

  /** For a chain of up to 2^18 blocks the limit is 110, and it is needed. */
  lemma DocumentedSteps()
    ensures forall w: nat, t: nat :: t <= w <= 0x40000 ==> Steps(w, t) <= 110
    ensures Steps(0x3FFF8, 2) == 110
  {
    hide *;
    Eighteen();
    StepsReached(18);
    forall w: nat, t: nat | t <= w <= 0x40000
      ensures Steps(w, t) <= 110
    {
      StepsBound(18, w, t);
    }
  }

  lemma Eighteen()
    ensures Two(18) == 0x40000 && MostSteps(18) == 110
  {
    assert Two(9) == 512;
    assert Two(14) == 16384;
  }
}
