/** Amounts written with their trailing zeros as an exponent. */
module Compressor {
  import opened Numbers

  const WORD: nat := 0x1_0000_0000_0000_0000
  const MAX_MONEY: nat := 21_000_000 * 100_000_000

  // ---------- on unbounded numbers ----------

  function Ten(e: nat): (p: nat)
    ensures p > 0
  {
    if e == 0 then 1 else 10 * Ten(e - 1)
  }

  /** The exponent: how often ten divides n, at most `most` times. */
  function Zeros(n: nat, most: nat): (e: nat)
    ensures e <= most
  {
    if n % 10 == 0 && most > 0 then 1 + Zeros(n / 10, most - 1) else 0
  }

  /** What is left when the exponent is taken out. */
  function Head(n: nat, most: nat): nat {
    if n % 10 == 0 && most > 0 then Head(n / 10, most - 1) else n
  }

  function Pack(m: nat, e: nat): nat
    requires m > 0 && e <= 9 && (e < 9 ==> m % 10 != 0)
  {
    if e < 9 then 1 + (m / 10 * 9 + m % 10 - 1) * 10 + e else 1 + (m - 1) * 10 + 9
  }

  lemma {:induction false} HeadZeros(n: nat, most: nat)
    requires n > 0
    ensures Head(n, most) > 0 && n == Head(n, most) * Ten(Zeros(n, most))
    ensures Zeros(n, most) < most ==> Head(n, most) % 10 != 0
  {
    if n % 10 == 0 && most > 0 {
      HeadZeros(n / 10, most - 1);
      var h, t := Head(n / 10, most - 1), Ten(Zeros(n / 10, most - 1));
      assert n == 10 * (h * t);
    } else {
      assert Ten(0) == 1;
    }
  }

  /** A number determines its exponent and the rest. */
  lemma {:induction false} HeadZerosUnique(m: nat, e: nat, most: nat)
    requires m > 0 && e <= most && (e < most ==> m % 10 != 0)
    ensures Head(m * Ten(e), most) == m && Zeros(m * Ten(e), most) == e
  {
    if e == 0 {
      assert m * Ten(0) == m;
    } else {
      var n := m * Ten(e);
      assert n == 10 * (m * Ten(e - 1));
      HeadZerosUnique(m, e - 1, most - 1);
    }
  }

  function Compress(n: nat): nat {
    if n == 0 then 0
    else
      HeadZeros(n, 9);
      Pack(Head(n, 9), Zeros(n, 9))
  }

  /** The exponent in a packed number. */
  function ExponentOf(x: nat): nat {
    (x - 1) % 10
  }

  function HeadOf(x: nat): nat
    requires x > 0
  {
    var y := (x - 1) / 10;
    if (x - 1) % 10 < 9 then y / 9 * 10 + y % 9 + 1 else y + 1
  }

  function Decompress(x: nat): nat {
    if x == 0 then 0 else HeadOf(x) * Ten(ExponentOf(x))
  }

  lemma UnpackPack(m: nat, e: nat)
    requires m > 0 && e <= 9 && (e < 9 ==> m % 10 != 0)
    ensures Pack(m, e) > 0 && HeadOf(Pack(m, e)) == m && ExponentOf(Pack(m, e)) == e
  {
    if e < 9 {
      var y := m / 10 * 9 + m % 10 - 1;
      DivModUnique(y, 9, m / 10, m % 10 - 1);
      DivModUnique(y * 10 + e, 10, y, e);
    }
  }

  lemma PackUnpack(x: nat)
    requires x > 0
    ensures var m, e := HeadOf(x), ExponentOf(x);
            m > 0 && e <= 9 && (e < 9 ==> m % 10 != 0) && Pack(m, e) == x
  {
    var y, e := (x - 1) / 10, (x - 1) % 10;
    if e < 9 {
      DivModUnique(y / 9 * 10 + y % 9 + 1, 10, y / 9, y % 9 + 1);
    }
  }

  /** Every amount comes back. */
  lemma DecompressCompress(n: nat)
    ensures Decompress(Compress(n)) == n
  {
    if n > 0 {
      HeadZeros(n, 9);
      UnpackPack(Head(n, 9), Zeros(n, 9));
    }
  }

  /** Every number is the compressed form of one amount. */
  lemma CompressDecompress(x: nat)
    ensures Compress(Decompress(x)) == x
  {
    if x > 0 {
      PackUnpack(x);
      var m, e := HeadOf(x), ExponentOf(x);
      MulMonotone(m, 1, Ten(e));
      HeadZerosUnique(m, e, 9);
    }
  }

  /** All the money there is compresses without leaving 64 bits. */
  lemma MoneyFits(n: nat)
    requires n <= MAX_MONEY
    ensures Compress(n) < WORD
  {
    if n > 0 {
      HeadZeros(n, 9);
      MulMonotone(Head(n, 9), 1, Ten(Zeros(n, 9)));
    }
  }

  // ---------- on 64-bit numbers ----------

  method CompressAmount(amount: nat) returns (r: nat)
    requires amount < WORD
    ensures r == Compress(amount) % WORD
    ensures amount <= MAX_MONEY ==> r == Compress(amount)
  {
    if amount == 0 { return 0; }
    hide Compress;
    hide Head;
    hide Zeros;
    var n, e := DropZeros(amount);
    PackedForm(amount);
    var x := PackDigits(n, e);
    r := x % WORD;
    if amount <= MAX_MONEY { MoneyFits(amount); }
  }

  lemma PackedForm(n: nat)
    requires n > 0
    ensures var m, e := Head(n, 9), Zeros(n, 9);
            m > 0 && e <= 9 && (e < 9 ==> m % 10 != 0) && Compress(n) == Pack(m, e)
  {
    HeadZeros(n, 9);
  }

  method PackDigits(m: nat, e: nat) returns (x: nat)
    requires m > 0 && e <= 9 && (e < 9 ==> m % 10 != 0)
    ensures x == Pack(m, e)
  {
    if e < 9 {
      var d := m % 10;
      assert 1 <= d <= 9;
      var n := m / 10;
      x := 1 + (n * 9 + d - 1) * 10 + e;
    } else {
      x := 1 + (m - 1) * 10 + 9;
    }
  }

  /** Divide by ten as long as nothing is lost, at most nine times. */
  method DropZeros(amount: nat) returns (n: nat, e: nat)
    ensures n == Head(amount, 9) && e == Zeros(amount, 9)
  {
    n, e := amount, 0;
    while n % 10 == 0 && e < 9
      invariant e <= 9
      invariant Head(amount, 9) == Head(n, 9 - e) && Zeros(amount, 9) == e + Zeros(n, 9 - e)
    {
      n := n / 10;
      e := e + 1;
    }
  }

  method DecompressAmount(amount: nat) returns (n: nat)
    requires amount < WORD
    ensures n == Decompress(amount) % WORD
  {
    if amount == 0 { return 0; }
    var x := amount - 1;
    var e: nat := x % 10;
    x := x / 10;
    if e < 9 {
      var d := x % 9 + 1;
      x := x / 9;
      n := x * 10 + d;
    } else {
      n := x + 1;
    }
    ghost var m := n;
    assert m == HeadOf(amount) && e == ExponentOf(amount);
    while e > 0
      invariant e >= 0 && n < WORD
      invariant n * Ten(e) % WORD == m * Ten(ExponentOf(amount)) % WORD
    {
      WrapTen(n, Ten(e - 1));
      n := n * 10 % WORD;
      e := e - 1;
    }
    assert n * Ten(0) == n;
  }

  /** Wrapping early does not change the wrapped product. */
  lemma WrapTen(n: nat, t: nat)
    ensures (n * 10 % WORD) * t % WORD == n * (10 * t) % WORD
  {
    var q, r := n * 10 / WORD, n * 10 % WORD;
    assert n * (10 * t) == q * t * WORD + r * t by { MulAssoc(n, 10, t); assert n * 10 * t == (q * WORD + r) * t; }
    var q', r' := r * t / WORD, r * t % WORD;
    assert n * (10 * t) == (q * t + q') * WORD + r';
    DivModUnique(n * (10 * t), WORD, q * t + q', r');
  }

  /** An amount survives being stored. */
  method StoreAmount(n: nat) returns (stored: nat, back: nat)
    requires n <= MAX_MONEY
    ensures stored == Compress(n) && back == n
  {
    hide Compress;
    hide Decompress;
    MoneyFits(n);
    DecompressCompress(n);
    stored := CompressAmount(n);
    back := DecompressAmount(stored);
  }
}
