/** Reading a coin record accepts nothing but what writing produces. */
module CoinsParse {
  import opened Options
  import opened Numbers
  import opened Coins
  import opened VarInt
  import opened CoinsCodec

  /** Outputs are read only from what is written for them, and none of them is spent. */
  ghost predicate Canonical(codec: OutCodec) {
    forall s: seq<Byte> {:trigger codec.dec(s)} ::
      codec.dec(s).Some? ==>
        var (o, rest) := codec.dec(s).value; !o.Null? && s == codec.enc(o) + rest
  }

  // ---------- the mask ----------

  lemma EightBits(b: Byte, c: Byte)
    requires forall p :: 0 <= p < 8 ==> BitOf(b, p) == BitOf(c, p)
    ensures b == c
  {
    SameHalves(b, c, 8);
  }

  lemma {:induction false} SameHalves(b: nat, c: nat, n: nat)
    requires b < Pow(2, n) && c < Pow(2, n) && forall p :: 0 <= p < n ==> BitOf(b, p) == BitOf(c, p)
    ensures b == c
  {
    if n > 0 {
      assert BitOf(b, 0) == BitOf(c, 0);
      forall p | 0 <= p < n - 1
        ensures BitOf(b / 2, p) == BitOf(c / 2, p)
      {
        assert BitOf(b, p + 1) == BitOf(c, p + 1);
      }
      SameHalves(b / 2, c / 2, n - 1);
    }
  }

  /** The bytes that the mask was read from. */
  lemma {:induction false} ReadMaskFrom(s: seq<Byte>, k: nat) returns (m: seq<Byte>)
    requires ReadMask(s, k).Some?
    ensures var (bits, rest) := ReadMask(s, k).value; s == m + rest && bits == BitsOf(m)
    ensures Nonzero(m) == k && Strip(m) == m
  {
    if k == 0 {
      m := [];
    } else {
      var tail := ReadMaskFrom(s[1..], if s[0] != 0 then k - 1 else k);
      m := [s[0]] + tail;
      assert m[1..] == tail;
    }
  }

  lemma SameFlagsVia(x: seq<bool>, y: seq<bool>, z: seq<bool>)
    requires SameFlags(x, z) && SameFlags(y, z)
    ensures SameFlags(x, y)
  {
  }

  lemma HeadFlags(x: seq<Byte>, y: seq<Byte>)
    requires x != [] && y != [] && SameFlags(BitsOf(x), BitsOf(y))
    ensures x[0] == y[0] && SameFlags(BitsOf(x[1..]), BitsOf(y[1..]))
  {
    var u, v := BitsOf(x), BitsOf(y);
    forall p | 0 <= p < 8
      ensures BitOf(x[0], p) == BitOf(y[0], p)
    {
      assert u[p] == BitOf(x[0], p) && v[p] == BitOf(y[0], p);
    }
    EightBits(x[0], y[0]);
    assert u[8..] == BitsOf(x[1..]) && v[8..] == BitsOf(y[1..]);
    DropFlags(u, v);
  }

  lemma DropFlags(u: seq<bool>, v: seq<bool>)
    requires SameFlags(u, v) && |u| >= 8 && |v| >= 8
    ensures SameFlags(u[8..], v[8..])
  {
    forall i | 0 <= i < |u| - 8 && u[8..][i]
      ensures i < |v| - 8 && v[8..][i]
    {
      assert u[i + 8];
    }
    forall i | 0 <= i < |v| - 8 && v[8..][i]
      ensures i < |u| - 8 && u[8..][i]
    {
      assert v[i + 8];
    }
  }

  lemma {:induction false} NoFlags(x: seq<Byte>)
    requires forall i :: 0 <= i < |BitsOf(x)| ==> !BitsOf(x)[i]
    ensures Nonzero(x) == 0
  {
    if x != [] {
      forall p | 0 <= p < 8
        ensures BitOf(x[0], p) == BitOf(0, p)
      {
        assert BitsOf(x)[p] == BitOf(x[0], p);
        ZeroBits(p);
      }
      EightBits(x[0], 0);
      assert BitsOf(x)[8..] == BitsOf(x[1..]);
      forall i | 0 <= i < |BitsOf(x[1..])|
        ensures !BitsOf(x[1..])[i]
      {
        assert BitsOf(x)[i + 8] == BitsOf(x[1..])[i];
      }
      NoFlags(x[1..]);
    }
  }

  /** Masks without zero bytes at the end are the same when their bits are. */
  lemma {:induction false} MaskUnique(x: seq<Byte>, y: seq<Byte>)
    requires Strip(x) == x && Strip(y) == y && SameFlags(BitsOf(x), BitsOf(y))
    ensures x == y
  {
    if x == [] {
      NoFlags(y);
      StripNonzero(y);
    } else if y == [] {
      NoFlags(x);
      StripNonzero(x);
    } else {
      HeadFlags(x, y);
      StripTail(x);
      StripTail(y);
      MaskUnique(x[1..], y[1..]);
    }
  }

  lemma StripTail(x: seq<Byte>)
    requires x != [] && Strip(x) == x
    ensures Strip(x[1..]) == x[1..]
  {
  }

  lemma {:induction false} StripTwice(x: seq<Byte>)
    ensures Strip(Strip(x)) == Strip(x)
  {
    if x != [] {
      StripTwice(x[1..]);
    }
  }

  // ---------- the outputs ----------

  lemma {:induction false} ReadOutsFrom(codec: OutCodec, avail: seq<bool>, s: seq<Byte>)
    requires Canonical(codec) && DecodeOuts(codec, avail, s).Some?
    ensures var (outs, rest) := DecodeOuts(codec, avail, s).value;
            s == EncodeOuts(codec, outs) + rest && Avail(outs) == avail
  {
    var (outs, rest) := DecodeOuts(codec, avail, s).value;
    if avail != [] {
      var s' := if avail[0] then codec.dec(s).value.1 else s;
      ReadOutsFrom(codec, avail[1..], s');
      var tail := DecodeOuts(codec, avail[1..], s').value.0;
      assert outs[1..] == tail;
      assert Avail(outs) == [!outs[0].Null?] + Avail(tail);
      if avail[0] {
        assert s == codec.enc(outs[0]) + (EncodeOuts(codec, tail) + rest);
      }
    }
  }

  lemma {:induction false} EncodeSplit(codec: OutCodec, v: seq<TxOut>, w: seq<TxOut>)
    ensures EncodeOuts(codec, v + w) == EncodeOuts(codec, v) + EncodeOuts(codec, w)
  {
    if v == [] {
      assert v + w == w;
    } else {
      assert (v + w)[1..] == v[1..] + w;
      EncodeSplit(codec, v[1..], w);
    }
  }

  /** Spent outputs at the end are not written. */
  lemma EncodeTrimmed(codec: OutCodec, vout: seq<TxOut>)
    ensures EncodeOuts(codec, Trim(vout)) == EncodeOuts(codec, vout)
  {
    var t := Trim(vout);
    var w := vout[|t|..];
    assert vout == t + w;
    EncodeSplit(codec, t, w);
    AllNullEncoding(codec, w);
  }

  // ---------- the whole ----------

  lemma Bits012(n: nat)
    ensures n == 8 * (n / 8) + (if BitOf(n, 0) then 1 else 0) + (if BitOf(n, 1) then 2 else 0)
                 + (if BitOf(n, 2) then 4 else 0)
  {
    assert BitOf(n, 1) == BitOf(n / 2, 0);
    assert BitOf(n, 2) == BitOf(n / 2, 1) == BitOf(n / 2 / 2, 0);
    assert n / 8 == n / 2 / 2 / 2;
  }

  /** Availabilities read as two flags and a mask are those of the trimmed outputs. */
  lemma TrimmedFlags(outs: seq<TxOut>, f0: bool, f1: bool, bits: seq<bool>)
    requires Avail(outs) == [f0, f1] + bits
    ensures First(Trim(outs)) == f0 && Second(Trim(outs)) == f1 && SameFlags(bits, Mask(Trim(outs)))
  {
    hide Trim;
    hide Mask;
    var t := Trim(outs);
    assert Avail(outs)[0] == f0 && Avail(outs)[1] == f1;
    assert forall i :: 0 <= i < |bits| ==> bits[i] == Avail(outs)[i + 2];
    MaskOf(t);
    forall i | 0 <= i < |bits| && bits[i]
      ensures i < |Mask(t)| && Mask(t)[i]
    {
      assert !outs[i + 2].Null?;
    }
    forall i | 0 <= i < |Mask(t)| && Mask(t)[i]
      ensures i < |bits| && bits[i]
    {
      assert !t[i + 2].Null?;
    }
  }

  lemma MaskOf(t: seq<TxOut>)
    ensures |Mask(t)| == if |t| <= 2 then 0 else |t| - 2
    ensures forall i :: 0 <= i < |Mask(t)| ==> Mask(t)[i] == !t[i + 2].Null?
  {
  }

  /** The mask and the code that were read are those of the coins they led to. */
  lemma CodeRead(nCode: nat, outs: seq<TxOut>, m: seq<Byte>, c: CoinSet)
    requires Avail(outs) == [BitOf(nCode, 1), BitOf(nCode, 2)] + BitsOf(m)
    requires Nonzero(m) == MaskCode(nCode) && Strip(m) == m
    requires c.vout == Trim(outs) && c.fCoinBase == BitOf(nCode, 0)
    ensures Strip(MaskBytes(Mask(c.vout))) == m && Code(c) == nCode && !IsPruned(c)
  {
    hide BitOf;
    hide Mask;
    hide MaskBytes;
    hide Trim;
    var bytes := MaskBytes(Mask(c.vout));
    TrimmedFlags(outs, BitOf(nCode, 1), BitOf(nCode, 2), BitsOf(m));
    MaskBack(Mask(c.vout));
    SameFlagsVia(BitsOf(m), BitsOf(Strip(bytes)), Mask(c.vout));
    StripTwice(bytes);
    MaskUnique(m, Strip(bytes));
    StripNonzero(bytes);
    Bits012(nCode);
    if IsPruned(c) {
      NothingFlagged(c.vout, m);
    }
  }

  lemma NothingFlagged(vout: seq<TxOut>, m: seq<Byte>)
    requires SameFlags(BitsOf(m), Mask(vout)) && forall i :: 0 <= i < |vout| ==> vout[i].Null?
    ensures Nonzero(m) == 0 && !First(vout) && !Second(vout)
  {
    NoFlags(m);
  }

  lemma Joined(v: seq<Byte>, c: seq<Byte>, m: seq<Byte>, o: seq<Byte>, h: seq<Byte>, rest: seq<Byte>)
    ensures v + (c + (m + (o + (h + rest)))) == v + (c + (m + (o + h))) + rest
  {
  }

  /** Whatever is read as a record is the record of what was read; there are no other ways to write it. */
  lemma ReadIsWritten(codec: OutCodec, s: seq<Byte>)
    requires Canonical(codec) && Unserialized(codec, s).Some?
    ensures var (c, rest) := Unserialized(codec, s).value;
            s == Serialized(codec, c) + rest && Clean(c) && !IsPruned(c) && c.nVersion >= 0 && c.nHeight >= 0
  {
    var (nVersion, s1) := ReadVarInt(s).value;
    var (nCode, s2) := ReadVarInt(s1).value;
    hide ReadVarInt;
    hide ReadMask;
    hide DecodeOuts;
    hide VarBytes;
    hide Canonical;
    hide BitOf;
    hide Strip;
    hide MaskBytes;
    hide Mask;
    hide EncodeOuts;
    hide Code;
    WriteRead(s);
    WriteRead(s1);
    var body, h := BodyRead(codec, nVersion, nCode, s2);
    var (c, rest) := Unserialized(codec, s).value;
    Joined(VarBytes(nVersion, true), VarBytes(nCode, true), Strip(MaskBytes(Mask(c.vout))), body, h, rest);
  }

  /** The bytes of the outputs and of the height. */
  lemma BodyRead(codec: OutCodec, nVersion: nat, nCode: nat, s: seq<Byte>) returns (outs: seq<Byte>, h: seq<Byte>)
    requires Canonical(codec) && ReadBody(codec, nVersion, nCode, s).Some?
    ensures var (c, rest) := ReadBody(codec, nVersion, nCode, s).value;
            && Code(c) == nCode && Clean(c) && !IsPruned(c) && c.nVersion == nVersion && c.nHeight >= 0
            && outs == EncodeOuts(codec, c.vout) && h == VarBytes(c.nHeight, true)
            && s == Strip(MaskBytes(Mask(c.vout))) + (outs + (h + rest))
  {
    var (bits, s3) := ReadMask(s, MaskCode(nCode)).value;
    var avail := [BitOf(nCode, 1), BitOf(nCode, 2)] + bits;
    var (vout, s4) := DecodeOuts(codec, avail, s3).value;
    var (c, rest) := ReadBody(codec, nVersion, nCode, s).value;
    hide ReadVarInt;
    hide ReadMask;
    hide DecodeOuts;
    hide VarBytes;
    hide Canonical;
    hide BitOf;
    hide Strip;
    hide MaskBytes;
    hide Mask;
    hide EncodeOuts;
    hide Code;
    hide Trim;
    WriteRead(s4);
    var m := ReadMaskFrom(s, MaskCode(nCode));
    ReadOutsFrom(codec, avail, s3);
    EncodeTrimmed(codec, vout);
    CodeRead(nCode, vout, m, c);
    outs, h := EncodeOuts(codec, c.vout), VarBytes(c.nHeight, true);
  }
}
