/** The documented formats of numbers, amounts and coin records, down to the bytes. */
module CoinsFormat {
  import opened Coins
  import opened VarInt
  import opened CoinsCodec
  import opened Compressor

  // ---------- numbers ----------

  /** The value documented for continuation bytes, to which the last byte is still to be added. */
  function Carried(s: seq<Byte>): nat {
    if s == [] then 0 else 128 * (Carried(s[..|s| - 1]) + s[|s| - 1] % 128 + 1)
  }

  lemma {:induction false} CarriedGroups(n: nat)
    ensures Carried(VarBytes(n, false)) == 128 * (n + 1)
    ensures forall i :: 0 <= i < |VarBytes(n, false)| ==> VarBytes(n, false)[i] >= 128
    decreases n
  {
    var s := VarBytes(n, false);
    if n <= 0x7F {
      assert s[..0] == [];
    } else {
      CarriedGroups(n / 128 - 1);
      assert s[..|s| - 1] == VarBytes(n / 128 - 1, false);
    }
  }

  /** The bytes of a number: all but the last carry bit 7, and their documented value is the number. */
  lemma NumberFormat(n: nat)
    ensures var s := VarBytes(n, true);
            && (forall i :: 0 <= i < |s| - 1 ==> s[i] >= 128) && s[|s| - 1] < 128
            && s[|s| - 1] + Carried(s[..|s| - 1]) == n
  {
    var s := VarBytes(n, true);
    if n > 0x7F {
      CarriedGroups(n / 128 - 1);
      assert s[..|s| - 1] == VarBytes(n / 128 - 1, false);
    }
  }

  /** One byte up to 127, two up to 16511, three up to 2113663. */
  lemma NumberSizes(n: nat)
    ensures |VarBytes(n, true)| == 1 <==> n <= 127
    ensures |VarBytes(n, true)| <= 2 <==> n <= 16511
    ensures |VarBytes(n, true)| <= 3 <==> n <= 2113663
  {
    if n > 127 {
      var m := n / 128 - 1;
      if m > 127 {
        assert |VarBytes(m, false)| == 1 + |VarBytes(m / 128 - 1, false)|;
      }
    }
  }

  lemma Grow(n: int, head: seq<Byte>)
    requires n > 0x7F && VarBytes(n / 128 - 1, false) == head
    ensures VarBytes(n, true) == head + [n % 128] && VarBytes(n, false) == head + [n % 128 + 128]
  {
  }

  /** The documented examples, with the bytes the code writes: the list in serialize.h errs for 16511 and 65535. */
  lemma NumberExamples()
    ensures VarBytes(0, true) == [0x00] && VarBytes(1, true) == [0x01] && VarBytes(127, true) == [0x7F]
    ensures VarBytes(128, true) == [0x80, 0x00] && VarBytes(255, true) == [0x80, 0x7F]
    ensures VarBytes(256, true) == [0x81, 0x00] && VarBytes(16383, true) == [0xFE, 0x7F]
    ensures VarBytes(16384, true) == [0xFF, 0x00] && VarBytes(16511, true) == [0xFF, 0x7F]
    ensures VarBytes(65535, true) == [0x82, 0xFE, 0x7F]
  {
    Grow(65535 / 128 - 1, [0x82]);
  }

  lemma HeightExamples()
    ensures VarBytes(203998, true) == [0x8B, 0xB8, 0x5E] && VarBytes(120891, true) == [0x86, 0xAF, 0x3B]
  {
    Grow(203998 / 128 - 1, [0x8B]);
    Grow(203998, [0x8B, 0xB8]);
    Grow(120891 / 128 - 1, [0x86]);
    Grow(120891, [0x86, 0xAF]);
  }

  // ---------- amounts ----------

  /** The documented form of an amount with e < 9 zeros at the end, its last other digit d, and n before that. */
  lemma AmountFormat(n: nat, d: nat, e: nat)
    requires 1 <= d <= 9 && e < 9
    ensures Compress((10 * n + d) * Ten(e)) == 1 + 10 * (9 * n + d - 1) + e
  {
    var m := 10 * n + d;
    HeadZerosUnique(m, e, 9);
    TenTimes(m, e);
    assert m / 10 == n && m % 10 == d;
  }

  /** And of one with nine zeros or more. */
  lemma RoundAmountFormat(n: nat)
    requires n > 0
    ensures Compress(n * 1_000_000_000) == 1 + 10 * (n - 1) + 9
  {
    assert Ten(9) == 1_000_000_000;
    HeadZerosUnique(n, 9, 9);
    TenTimes(n, 9);
  }

  lemma TenTimes(m: nat, e: nat)
    requires m > 0
    ensures m * Ten(e) > 0
  {
  }

  /** The documented and the tested examples. */
  lemma AmountExamples()
    ensures Compress(0) == 0 && Compress(1) == 1 && Compress(1_000_000) == 7 && Compress(100_000_000) == 9
    ensures Compress(5_000_000_000) == 0x32 && Compress(2_100_000_000_000_000) == 0x1406F40
    ensures Compress(60_000_000_000) == 600 && Compress(234_925_952) == 2_114_333_561 && Compress(110_397) == 993_571
  {
    hide Compress;
    NoAmount();
    assert Ten(0) == 1 && Ten(6) == 1_000_000 && Ten(8) == 100_000_000;
    AmountFormat(0, 1, 0);
    AmountFormat(0, 1, 6);
    AmountFormat(0, 1, 8);
    RoundAmountFormat(5);
    RoundAmountFormat(2_100_000);
    RoundAmountFormat(60);
    AmountFormat(23_492_595, 2, 0);
    AmountFormat(11_039, 7, 0);
  }

  lemma NoAmount()
    ensures Compress(0) == 0
  {
  }

  lemma AmountBytes()
    ensures VarBytes(600, true) == [0x83, 0x58] && VarBytes(993_571, true) == [0xBB, 0xD1, 0x23]
    ensures VarBytes(2_114_333_561, true) == [0x86, 0xEF, 0x97, 0xD5, 0x79]
  {
    Grow(993_571 / 128 - 1, [0xBB]);
    Grow(993_571, [0xBB, 0xD1]);
    Grow(((2_114_333_561 / 128 - 1) / 128 - 1) / 128 - 1, [0x86]);
    Grow((2_114_333_561 / 128 - 1) / 128 - 1, [0x86, 0xEF]);
    Grow(2_114_333_561 / 128 - 1, [0x86, 0xEF, 0x97]);
    Grow(2_114_333_561, [0x86, 0xEF, 0x97, 0xD5]);
  }

  // ---------- records ----------

  /** What is written for a record, part by part. */
  lemma RecordFormat(codec: OutCodec, c: CoinSet)
    ensures var body := VarBytes(Code(c), true) + Strip(MaskBytes(Mask(c.vout))) + EncodeOuts(codec, c.vout);
            Serialized(codec, c) == VarBytes(c.nVersion, true) + body + VarBytes(c.nHeight, true)
  {
    Regroup(VarBytes(c.nVersion, true), VarBytes(Code(c), true), Strip(MaskBytes(Mask(c.vout))),
            EncodeOuts(codec, c.vout), VarBytes(c.nHeight, true));
  }

  lemma Regroup(a: seq<Byte>, b: seq<Byte>, c: seq<Byte>, d: seq<Byte>, e: seq<Byte>)
    ensures a + (b + (c + (d + e))) == a + (b + c + d) + e
  {
  }

  /** The first documented record: the second of two outputs unspent, at height 203998. */
  lemma FirstExample(codec: OutCodec, o: TxOut)
    requires !o.Null?
    ensures Serialized(codec, CoinSet(false, [Null, o], 203998, 1)) == [0x01, 0x04] + codec.enc(o) + [0x8B, 0xB8, 0x5E]
  {
    var c := CoinSet(false, [Null, o], 203998, 1);
    RecordFormat(codec, c);
    HeightExamples();
    assert EncodeOuts(codec, [o]) == codec.enc(o) + EncodeOuts(codec, []) by { assert [o][1..] == []; }
    assert EncodeOuts(codec, c.vout) == codec.enc(o) by { assert c.vout[1..] == [o]; }
    assert Mask(c.vout) == [] && MaskBytes([]) == [] && Code(c) == 4;
    assert VarBytes(4, true) == [0x04] && VarBytes(1, true) == [0x01];
    hide Serialized;
    assert [0x01] + ([0x04] + [] + codec.enc(o)) == [0x01, 0x04] + codec.enc(o);
  }

  /** Seventeen outputs of which only the fifth and the last are unspent. */
  function Seventeen(o: TxOut, p: TxOut): seq<TxOut> {
    seq(17, i => if i == 4 then o else if i == 16 then p else Null)
  }

  lemma SeventeenMask(o: TxOut, p: TxOut)
    requires !o.Null? && !p.Null?
    ensures MaskBytes(Mask(Seventeen(o, p))) == [0x04, 0x40]
  {
    var a := Mask(Seventeen(o, p));
    assert |a| == 15 && forall i :: 0 <= i < 15 ==> (a[i] <==> i == 2 || i == 14);
    var x, y := a[..8], a[8..];
    assert x == [false, false, true, false, false, false, false, false];
    assert y == [false, false, false, false, false, false, true];
    assert y[..7] == y && y[7..] == [];
    assert ByteOf(x) == 4 by { ByteFour(x); }
    assert ByteOf(y) == 64 by { ByteSixtyFour(y); }
    assert MaskBytes(y) == [0x40] + MaskBytes([]);
  }

  lemma ByteFour(x: seq<bool>)
    requires x == [false, false, true, false, false, false, false, false]
    ensures ByteOf(x) == 4
  {
    assert x[1..][1..][1..] == [false, false, false, false, false];
    ByteOfBound(x[1..][1..][1..]);
    assert ByteOf(x) == 2 * ByteOf(x[1..]) == 4 * ByteOf(x[1..][1..]);
    assert ByteOf(x[1..][1..]) == 1 + 2 * ByteOf(x[1..][1..][1..]);
  }

  lemma ByteSixtyFour(y: seq<bool>)
    requires y == [false, false, false, false, false, false, true]
    ensures ByteOf(y) == 64
  {
    var z := y[1..][1..][1..];
    assert z == [false, false, false, true] && z[1..][1..][1..] == [true];
    assert ByteOf(y) == 2 * ByteOf(y[1..]) == 4 * ByteOf(y[1..][1..]) == 8 * ByteOf(z);
    assert ByteOf(z) == 2 * ByteOf(z[1..]) == 4 * ByteOf(z[1..][1..]) == 8 * ByteOf(z[1..][1..][1..]);
    assert [true][1..] == [] && ByteOf([true]) == 1;
  }

  lemma {:induction false} EncodeSkips(codec: OutCodec, vout: seq<TxOut>, n: nat)
    requires n <= |vout| && forall i :: 0 <= i < n ==> vout[i].Null?
    ensures EncodeOuts(codec, vout) == EncodeOuts(codec, vout[n..])
  {
    if n > 0 {
      EncodeSkips(codec, vout[1..], n - 1);
      assert vout[1..][n - 1..] == vout[n..];
    }
  }

  lemma SeventeenOuts(codec: OutCodec, o: TxOut, p: TxOut)
    requires !o.Null? && !p.Null?
    ensures EncodeOuts(codec, Seventeen(o, p)) == codec.enc(o) + codec.enc(p)
  {
    var v := Seventeen(o, p);
    EncodeSkips(codec, v, 4);
    assert v[4..][1..] == v[5..];
    EncodeSkips(codec, v[5..], 11);
    assert v[5..][11..] == [p] && [p][1..] == [];
    assert EncodeOuts(codec, [p]) == codec.enc(p) + EncodeOuts(codec, []);
  }

  /** The second documented record: a coinbase with outputs 4 and 16 unspent, at height 120891. */
  lemma SecondExample(codec: OutCodec, o: TxOut, p: TxOut)
    requires !o.Null? && !p.Null?
    ensures Serialized(codec, CoinSet(true, Seventeen(o, p), 120891, 1))
         == [0x01, 0x09, 0x04, 0x40] + (codec.enc(o) + codec.enc(p)) + [0x86, 0xAF, 0x3B]
  {
    var c := CoinSet(true, Seventeen(o, p), 120891, 1);
    RecordFormat(codec, c);
    HeightExamples();
    SeventeenMask(o, p);
    SeventeenOuts(codec, o, p);
    var bytes: seq<Byte> := [0x04, 0x40];
    assert bytes[1..] == [0x40] && bytes[1..][1..] == [];
    assert Strip(bytes) == bytes && Nonzero(bytes) == 2;
    assert Code(c) == 9 && VarBytes(9, true) == [0x09] && VarBytes(1, true) == [0x01];
    hide Serialized;
    hide EncodeOuts;
    var outs := codec.enc(o) + codec.enc(p);
    assert [0x01] + ([0x09] + [0x04, 0x40] + outs) == [0x01, 0x09, 0x04, 0x40] + outs;
  }
}
