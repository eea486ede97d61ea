/** Numbers written with the most significant digit first, in any base. */
module Digits {
  import opened Numbers

  predicate InBase(s: seq<int>, base: nat) {
    forall i :: 0 <= i < |s| ==> 0 <= s[i] < base
  }

  ghost function Num(s: seq<int>, base: nat): int {
    if s == [] then 0 else Num(s[..|s| - 1], base) * base + s[|s| - 1]
  }

  /** The digits of v, without leading zeros. */
  ghost function DigitsOf(v: nat, base: nat): (s: seq<int>)
    requires base > 1
    ensures InBase(s, base)
  {
    if v == 0 then []
    else
      QuotientSmaller(v, base);
      DigitsOf(v / base, base) + [v % base]
  }

  lemma QuotientSmaller(v: nat, base: nat)
    requires base > 1 && v > 0
    ensures 0 <= v / base < v && 0 <= v % base < base && v == v / base * base + v % base
  {
    var q := v / base;
    if q >= v { MulMonotone(v, 2, base); MulMonotone(base, v, q); }
    if q < 0 { MulMonotone(base, q, -1); }
  }

  lemma Quotient(v: nat, base: nat)
    requires base > 1
    ensures 0 <= v / base && 0 <= v % base < base && v == v / base * base + v % base
  {
    if v > 0 { QuotientSmaller(v, base); }
  }

  lemma NextDigit(x: int, p: int, base: nat, d: int)
    requires 0 <= x < p && 0 <= d < base
    ensures 0 <= x * base + d < base * p
  {
    MulMonotone(base, x + 1, p);
    MulMonotone(base, 0, x);
  }

  lemma {:induction false} NumBound(s: seq<int>, base: nat)
    requires InBase(s, base) && base > 0
    ensures 0 <= Num(s, base) < Pow(base, |s|)
  {
    if s != [] {
      var n := |s| - 1;
      NumBound(s[..n], base);
      NextDigit(Num(s[..n], base), Pow(base, n), base, s[n]);
    }
  }

  lemma {:induction false} NumOfDigits(v: nat, base: nat)
    requires base > 1
    ensures Num(DigitsOf(v, base), base) == v
  {
    if v > 0 {
      QuotientSmaller(v, base);
      NumOfDigits(v / base, base);
      var d := DigitsOf(v, base);
      assert d[..|d| - 1] == DigitsOf(v / base, base);
    }
  }

  lemma {:induction false} DigitsNoZero(v: nat, base: nat)
    requires base > 1
    ensures v > 0 ==> DigitsOf(v, base) != [] && DigitsOf(v, base)[0] != 0
  {
    if v > 0 {
      if v < base {
        DivModUnique(v, base, 0, v);
      } else {
        QuotientPositive(v, base);
        DigitsNoZero(v / base, base);
      }
    }
  }

  lemma QuotientPositive(v: nat, base: nat)
    requires 1 < base <= v
    ensures 0 < v / base < v
  {
    var q, r := v / base, v % base;
    assert v == q * base + r;
    if q <= 0 { MulMonotone(base, q, 0); }
    MulMonotone(q, 2, base);
  }

  lemma {:induction false} NumPositive(s: seq<int>, base: nat)
    requires InBase(s, base) && base > 0 && s != [] && s[0] != 0
    ensures Num(s, base) > 0
  {
    var n := |s| - 1;
    if n > 0 {
      NumPositive(s[..n], base);
      MulMonotone(base, 1, Num(s[..n], base));
    }
  }

  /** Digits without leading zeros are the digits of their number. */
  lemma {:induction false} DigitsOfNum(s: seq<int>, base: nat)
    requires InBase(s, base) && base > 1 && (s != [] ==> s[0] != 0)
    ensures Num(s, base) >= 0 && DigitsOf(Num(s, base), base) == s
  {
    NumBound(s, base);
    if s != [] {
      var n := |s| - 1;
      NumPositive(s, base);
      DigitsOfNum(s[..n], base);
      DivModUnique(Num(s, base), base, Num(s[..n], base), s[n]);
      assert s[..n] + [s[n]] == s;
    }
  }

  lemma {:induction false} NumFront(x: int, s: seq<int>, base: nat)
    ensures Num([x] + s, base) == x * Pow(base, |s|) + Num(s, base)
  {
    if s == [] {
      assert [x] + s == [x];
      assert Num([x], base) == Num([], base) * base + x;
    } else {
      var n := |s| - 1;
      NumFront(x, s[..n], base);
      assert ([x] + s)[..|s|] == [x] + s[..n];
      assert x * Pow(base, |s|) == x * Pow(base, n) * base by { MulAssoc(x, Pow(base, n), base); }
    }
  }

  /** Leading zeros do not count. */
  lemma {:induction false} NumSkipZeros(s: seq<int>, base: nat, k: nat)
    requires k <= |s| && forall i :: 0 <= i < k ==> s[i] == 0
    ensures Num(s[k..], base) == Num(s, base)
  {
    if k == 0 {
      assert s[0..] == s;
    } else {
      NumSkipZeros(s, base, k - 1);
      assert s[k - 1..] == [0] + s[k..];
      NumFront(0, s[k..], base);
    }
  }

  // ---------- the buffer ----------

  /** Replace the number in the buffer by number * f + c; what does not fit is left over. */
  method MulAdd(buf: array<int>, base: nat, f: nat, c: nat) returns (carry: nat)
    requires InBase(buf[..], base) && base > 1
    modifies buf
    ensures InBase(buf[..], base)
    ensures Num(buf[..], base) + carry * Pow(base, buf.Length) == old(Num(buf[..], base)) * f + c
  {
    ghost var s := buf[..];
    carry := c;
    var i := buf.Length;
    assert buf[i..] == [] && s[i..] == [];
    while i > 0
      invariant 0 <= i <= buf.Length && InBase(buf[..], base)
      invariant forall j :: 0 <= j < i ==> buf[j] == s[j]
      invariant Num(buf[i..], base) + carry * Pow(base, buf.Length - i) == Num(s[i..], base) * f + c
    {
      i := i - 1;
      ghost var below := buf[i + 1..];
      MulMonotone(f, 0, buf[i]);
      var n := carry + f * buf[i];
      Quotient(n, base);
      var d, q := n % base, n / base;
      DigitStep(s, i, below, base, f, c, carry, d, q);
      buf[i], carry := d, q;
      assert buf[i..] == [d] + below;
    }
    assert buf[0..] == buf[..] && s[0..] == s;
  }

  lemma DigitStep(s: seq<int>, i: nat, below: seq<int>, base: nat, f: nat, c: int, carry: nat, d: int, q: int)
    requires i < |s| && |below| == |s| - i - 1 && q * base + d == carry + f * s[i]
    requires Num(below, base) + carry * Pow(base, |below|) == Num(s[i + 1..], base) * f + c
    ensures Num([d] + below, base) + q * Pow(base, |s| - i) == Num(s[i..], base) * f + c
  {
    hide Num;
    hide Pow;
    PowNext(base, |below|);
    assert |below| + 1 == |s| - i && s[i..] == [s[i]] + s[i + 1..];
    NumFront(d, below, base);
    NumFront(s[i], s[i + 1..], base);
    DigitTotal(d, q, base, Pow(base, |below|), carry, f, s[i], Num(s[i + 1..], base), Num(below, base), c);
  }

  lemma PowNext(base: nat, n: nat)
    ensures Pow(base, n + 1) == base * Pow(base, n)
  {
  }

  lemma DigitTotal(d: int, q: int, base: nat, p: nat, carry: int, f: int, x: int, v: int, a: int, c: int)
    requires q * base + d == carry + f * x && a + carry * p == v * f + c
    ensures d * p + a + q * (base * p) == (x * p + v) * f + c
  {
    MulAssoc(q, base, p);
    assert (q * base + d) * p == q * base * p + d * p;
    assert (x * p + v) * f == x * p * f + v * f;
    MulAssoc(f, x, p);
    assert (carry + f * x) * p == carry * p + f * x * p;
  }
}
