/**
 The serialized form of a coin set: version, a code with three flags and the number of non-zero
 mask bytes, the mask itself, the unspent outputs, and the height. Outputs are written by a codec
 that is a parameter here.
 */
module CoinsCodec {
  import opened Options
  import opened Numbers
  import opened Coins
  import opened VarInt

  datatype OutCodec = OutCodec(enc: TxOut -> seq<Byte>, dec: seq<Byte> -> Option<(TxOut, seq<Byte>)>)

  ghost predicate Invertible(codec: OutCodec) {
    forall o: TxOut, rest: seq<Byte> {:trigger codec.dec(codec.enc(o) + rest)} ::
      !o.Null? ==> codec.dec(codec.enc(o) + rest) == Some((o, rest))
  }

  // ---------- bits of a number ----------

  /** Bit p of n, as tested by n & (1 << p). */
  function BitOf(n: nat, p: nat): bool
    decreases p
  {
    if p == 0 then n % 2 == 1 else BitOf(n / 2, p - 1)
  }

  /** The number with the given bits, least significant first. */
  function ByteOf(bits: seq<bool>): nat {
    if bits == [] then 0 else (if bits[0] then 1 else 0) + 2 * ByteOf(bits[1..])
  }

  lemma {:induction false} ByteOfBits(bits: seq<bool>, p: nat)
    ensures BitOf(ByteOf(bits), p) == (p < |bits| && bits[p])
    decreases p
  {
    if bits == [] {
      ZeroBits(p);
    } else if p > 0 {
      assert ByteOf(bits) / 2 == ByteOf(bits[1..]);
      ByteOfBits(bits[1..], p - 1);
    }
  }

  lemma {:induction false} ZeroBits(p: nat)
    ensures !BitOf(0, p)
    decreases p
  {
    if p > 0 {
      ZeroBits(p - 1);
    }
  }

  lemma {:induction false} ByteOfBound(bits: seq<bool>)
    ensures ByteOf(bits) < Pow(2, |bits|)
    ensures ByteOf(bits) == 0 <==> forall i :: 0 <= i < |bits| ==> !bits[i]
  {
    if bits != [] {
      ByteOfBound(bits[1..]);
      assert forall i :: 1 <= i < |bits| ==> bits[i] == bits[1..][i - 1];
    }
  }

  // ---------- the mask ----------

  function Avail(vout: seq<TxOut>): (r: seq<bool>)
    ensures |r| == |vout| && forall i :: 0 <= i < |r| ==> r[i] == !vout[i].Null?
  {
    seq(|vout|, i requires 0 <= i < |vout| => !vout[i].Null?)
  }

  function Mask(vout: seq<TxOut>): seq<bool> {
    if |vout| <= 2 then [] else Avail(vout)[2..]
  }

  /** Eight availabilities to a byte. */
  function MaskBytes(a: seq<bool>): seq<Byte> {
    if a == [] then [] else [SmallByte(a[..Min(8, |a|)])] + MaskBytes(a[Min(8, |a|)..])
  }

  function SmallByte(bits: seq<bool>): Byte
    requires |bits| <= 8
  {
    ByteOfBound(bits);
    PowMonotone(2, |bits|, 8);
    assert Pow(2, 8) == 256 by { PowAdd(2, 4, 4); }
    ByteOf(bits)
  }

  /** Without the zero bytes at the end. */
  function Strip(bytes: seq<Byte>): seq<Byte> {
    if bytes == [] then []
    else
      var r := Strip(bytes[1..]);
      if r == [] && bytes[0] == 0 then [] else [bytes[0]] + r
  }

  function Nonzero(bytes: seq<Byte>): nat {
    if bytes == [] then 0 else (if bytes[0] != 0 then 1 else 0) + Nonzero(bytes[1..])
  }

  function BitsOf(bytes: seq<Byte>): (r: seq<bool>)
    ensures |r| == 8 * |bytes|
  {
    if bytes == [] then [] else seq(8, p requires 0 <= p < 8 => BitOf(bytes[0], p)) + BitsOf(bytes[1..])
  }

  /** Read mask bytes until k of them were non-zero. */
  function ReadMask(s: seq<Byte>, k: nat): Option<(seq<bool>, seq<Byte>)> {
    if k == 0 then Some(([], s))
    else if s == [] then None
    else
      match ReadMask(s[1..], if s[0] != 0 then k - 1 else k)
      case None => None
      case Some((bits, rest)) => Some((seq(8, p requires 0 <= p < 8 => BitOf(s[0], p)) + bits, rest))
  }

  lemma {:induction false} StripNonzero(bytes: seq<Byte>)
    ensures Nonzero(Strip(bytes)) == Nonzero(bytes)
    ensures Strip(bytes) == [] <==> Nonzero(bytes) == 0
  {
    if bytes != [] {
      StripNonzero(bytes[1..]);
    }
  }

  /** The count of non-zero bytes makes the reader stop exactly at the end of the mask. */
  lemma {:induction false} ReadMaskBack(bytes: seq<Byte>, tail: seq<Byte>)
    ensures ReadMask(Strip(bytes) + tail, Nonzero(bytes)) == Some((BitsOf(Strip(bytes)), tail))
  {
    StripNonzero(bytes);
    if Strip(bytes) == [] {
      assert Strip(bytes) + tail == tail;
    } else {
      var r := Strip(bytes[1..]);
      ReadMaskBack(bytes[1..], tail);
      StripNonzero(bytes[1..]);
      assert ([bytes[0]] + r + tail)[1..] == r + tail;
      if Nonzero(bytes) == 0 {
        assert false;
      }
    }
  }

  /** The bits in x and y are the same, absent ones counting as unset. */
  ghost predicate SameFlags(x: seq<bool>, y: seq<bool>) {
    && (forall i :: 0 <= i < |x| && x[i] ==> i < |y| && y[i])
    && (forall i :: 0 <= i < |y| && y[i] ==> i < |x| && x[i])
  }

  lemma SameFlagsAppend(u: seq<bool>, u': seq<bool>, x: seq<bool>, y: seq<bool>)
    requires |u| == 8 && |u'| <= 8 && SameFlags(u, u') && SameFlags(x, y)
    requires |u'| < 8 ==> y == []
    ensures SameFlags(u + x, u' + y)
  {
    forall i | 0 <= i < |u + x| && (u + x)[i]
      ensures i < |u' + y| && (u' + y)[i]
    {
      if i >= 8 { assert x[i - 8]; }
    }
    forall i | 0 <= i < |u' + y| && (u' + y)[i]
      ensures i < |u + x| && (u + x)[i]
    {
      if i >= |u'| { assert y[i - |u'|]; }
    }
  }

  /** The mask that was written has the availabilities it was made from. */
  lemma {:induction false} MaskBack(a: seq<bool>)
    ensures SameFlags(BitsOf(Strip(MaskBytes(a))), a)
    decreases |a|
  {
    if a != [] {
      var k := Min(8, |a|);
      var bytes := MaskBytes(a);
      var u := seq(8, p requires 0 <= p < 8 => BitOf(bytes[0], p));
      MaskBack(a[k..]);
      ByteOfBound(a[..k]);
      assert bytes[1..] == MaskBytes(a[k..]);
      assert SameFlags(u, a[..k]) by {
        forall p | 0 <= p < 8 ensures u[p] == (p < k && a[..k][p]) { ByteOfBits(a[..k], p); }
      }
      assert a == a[..k] + a[k..];
      SameFlagsAppend(u, a[..k], BitsOf(Strip(bytes[1..])), a[k..]);
    }
  }

  // ---------- the outputs ----------

  function EncodeOuts(codec: OutCodec, vout: seq<TxOut>): seq<Byte> {
    if vout == [] then []
    else (if vout[0].Null? then [] else codec.enc(vout[0])) + EncodeOuts(codec, vout[1..])
  }

  function DecodeOuts(codec: OutCodec, avail: seq<bool>, s: seq<Byte>): Option<(seq<TxOut>, seq<Byte>)> {
    if avail == [] then Some(([], s))
    else if avail[0] then
      match codec.dec(s)
      case None => None
      case Some((o, s')) =>
        (match DecodeOuts(codec, avail[1..], s')
         case None => None
         case Some((outs, rest)) => Some(([o] + outs, rest)))
    else
      match DecodeOuts(codec, avail[1..], s)
      case None => None
      case Some((outs, rest)) => Some(([Null] + outs, rest))
  }

  /** The outputs of vout at the available positions, null elsewhere. */
  ghost predicate Restored(outs: seq<TxOut>, avail: seq<bool>, vout: seq<TxOut>) {
    && |outs| == |avail|
    && forall i :: 0 <= i < |outs| ==> outs[i] == if avail[i] && i < |vout| then vout[i] else Null
  }

  lemma {:induction false} DecodeOutsBack(codec: OutCodec, avail: seq<bool>, vout: seq<TxOut>, tail: seq<Byte>)
    requires Invertible(codec) && SameFlags(avail, Avail(vout))
    ensures var r := DecodeOuts(codec, avail, EncodeOuts(codec, vout) + tail);
            r.Some? && r.value.1 == tail && Restored(r.value.0, avail, vout)
    decreases |avail| + |vout|
  {
    if avail == [] {
      AllNullEncoding(codec, vout);
      assert EncodeOuts(codec, vout) + tail == tail;
    } else if vout == [] {
      DecodeOutsBack(codec, avail[1..], vout, tail);
    } else {
      assert SameFlags(avail[1..], Avail(vout[1..])) by {
        TailBits(avail, Avail(vout));
        assert Avail(vout)[1..] == Avail(vout[1..]);
      }
      DecodeOutsBack(codec, avail[1..], vout[1..], tail);
      var rest := EncodeOuts(codec, vout[1..]) + tail;
      if avail[0] {
        assert EncodeOuts(codec, vout) + tail == codec.enc(vout[0]) + rest;
      } else {
        assert EncodeOuts(codec, vout) + tail == rest;
      }
    }
  }

  lemma TailBits(x: seq<bool>, y: seq<bool>)
    requires SameFlags(x, y) && x != [] && y != []
    ensures SameFlags(x[1..], y[1..]) && x[0] == y[0]
  {
    assert forall i :: 0 <= i < |x| - 1 ==> x[1..][i] == x[i + 1];
    assert forall i :: 0 <= i < |y| - 1 ==> y[1..][i] == y[i + 1];
  }

  lemma {:induction false} AllNullEncoding(codec: OutCodec, vout: seq<TxOut>)
    requires forall i :: 0 <= i < |vout| ==> vout[i].Null?
    ensures EncodeOuts(codec, vout) == []
  {
    if vout != [] {
      AllNullEncoding(codec, vout[1..]);
    }
  }

  // ---------- the whole ----------

  predicate First(vout: seq<TxOut>) {
    |vout| > 0 && !vout[0].Null?
  }

  predicate Second(vout: seq<TxOut>) {
    |vout| > 1 && !vout[1].Null?
  }

  /** Three flags, and above them the number of non-zero mask bytes, less one when neither flag is set. */
  function Code(c: CoinSet): int {
    var n := Nonzero(MaskBytes(Mask(c.vout)));
    8 * (n - (if First(c.vout) || Second(c.vout) then 0 else 1))
    + (if c.fCoinBase then 1 else 0) + (if First(c.vout) then 2 else 0) + (if Second(c.vout) then 4 else 0)
  }

  function Serialized(codec: OutCodec, c: CoinSet): seq<Byte> {
    VarBytes(c.nVersion, true) + (VarBytes(Code(c), true) + (Strip(MaskBytes(Mask(c.vout)))
    + (EncodeOuts(codec, c.vout) + VarBytes(c.nHeight, true))))
  }

  function Unserialized(codec: OutCodec, s: seq<Byte>): Option<(CoinSet, seq<Byte>)> {
    match ReadVarInt(s)
    case None => None
    case Some((nVersion, s1)) =>
      match ReadVarInt(s1)
      case None => None
      case Some((nCode, s2)) => ReadBody(codec, nVersion, nCode, s2)
  }

  function MaskCode(nCode: nat): nat {
    nCode / 8 + if BitOf(nCode, 1) || BitOf(nCode, 2) then 0 else 1
  }

  /** Mask, outputs and height. */
  function ReadBody(codec: OutCodec, nVersion: nat, nCode: nat, s: seq<Byte>): Option<(CoinSet, seq<Byte>)> {
    match ReadMask(s, MaskCode(nCode))
    case None => None
    case Some((bits, s')) => ReadOuts(codec, nVersion, nCode, [BitOf(nCode, 1), BitOf(nCode, 2)] + bits, s')
  }

  function ReadOuts(codec: OutCodec, nVersion: nat, nCode: nat, avail: seq<bool>, s: seq<Byte>)
    : Option<(CoinSet, seq<Byte>)>
  {
    match DecodeOuts(codec, avail, s)
    case None => None
    case Some((outs, s')) =>
      match ReadVarInt(s')
      case None => None
      case Some((nHeight, rest)) => Some((CoinSet(BitOf(nCode, 0), Trim(outs), nHeight, nVersion), rest))
  }

  lemma CodeBits(n: nat, f0: bool, f1: bool, f2: bool)
    ensures var code := 8 * n + (if f0 then 1 else 0) + (if f1 then 2 else 0) + (if f2 then 4 else 0);
            BitOf(code, 0) == f0 && BitOf(code, 1) == f1 && BitOf(code, 2) == f2 && code / 8 == n
  {
    var code := 8 * n + (if f0 then 1 else 0) + (if f1 then 2 else 0) + (if f2 then 4 else 0);
    assert BitOf(code, 1) == BitOf(code / 2, 0);
    assert BitOf(code, 2) == BitOf(code / 2, 1) == BitOf(code / 2 / 2, 0);
  }

  /** Something unspent that is not one of the first two outputs shows in the mask. */
  lemma MaskSeesOutput(vout: seq<TxOut>, i: nat)
    requires 2 <= i < |vout| && !vout[i].Null?
    ensures Nonzero(MaskBytes(Mask(vout))) > 0
  {
    var a := Mask(vout);
    assert a[i - 2];
    MaskBack(a);
    StripNonzero(MaskBytes(a));
  }

  lemma CodeIsNat(c: CoinSet)
    requires !IsPruned(c)
    ensures Code(c) >= 0
    ensures First(c.vout) || Second(c.vout) || Nonzero(MaskBytes(Mask(c.vout))) > 0
  {
    if !First(c.vout) && !Second(c.vout) {
      var i :| 0 <= i < |c.vout| && !c.vout[i].Null?;
      MaskSeesOutput(c.vout, i);
    }
  }

  lemma AllBits(vout: seq<TxOut>)
    ensures SameFlags([First(vout), Second(vout)] + BitsOf(Strip(MaskBytes(Mask(vout)))), Avail(vout))
  {
    var x := BitsOf(Strip(MaskBytes(Mask(vout))));
    MaskBack(Mask(vout));
    forall i | 2 <= i < 2 + |x|
      ensures x[i - 2] ==> i < |vout| && Avail(vout)[i]
    {
      if x[i - 2] { assert Mask(vout)[i - 2]; }
    }
    forall i | 2 <= i < |vout| && Avail(vout)[i]
      ensures i - 2 < |x| && x[i - 2]
    {
      assert Mask(vout)[i - 2];
    }
  }

  lemma ReadOutsBack(codec: OutCodec, c: CoinSet, nVersion: nat, nCode: nat, avail: seq<bool>, tail: seq<Byte>)
    requires Invertible(codec) && Clean(c) && SameFlags(avail, Avail(c.vout))
    ensures ReadOuts(codec, nVersion, nCode, avail, EncodeOuts(codec, c.vout) + (VarBytes(c.nHeight, true) + tail))
         == Some((CoinSet(BitOf(nCode, 0), c.vout, Reread(c.nHeight), nVersion), tail))
  {
    var t := VarBytes(c.nHeight, true) + tail;
    DecodeOutsBack(codec, avail, c.vout, t);
    RestoredTrims(DecodeOuts(codec, avail, EncodeOuts(codec, c.vout) + t).value.0, avail, c.vout);
    Rereads(c.nHeight, tail);
  }

  lemma CodeFields(c: CoinSet)
    requires !IsPruned(c)
    ensures Code(c) >= 0 && MaskCode(Code(c)) == Nonzero(MaskBytes(Mask(c.vout)))
    ensures BitOf(Code(c), 0) == c.fCoinBase
    ensures BitOf(Code(c), 1) == First(c.vout) && BitOf(Code(c), 2) == Second(c.vout)
  {
    CodeIsNat(c);
    var first, second := First(c.vout), Second(c.vout);
    CodeBits(Nonzero(MaskBytes(Mask(c.vout))) - (if first || second then 0 else 1), c.fCoinBase, first, second);
  }

  lemma ReadBodyBack(codec: OutCodec, c: CoinSet, nVersion: nat, tail: seq<Byte>)
    requires Invertible(codec) && Clean(c) && !IsPruned(c)
    ensures Code(c) >= 0
    ensures ReadBody(codec, nVersion, Code(c), Strip(MaskBytes(Mask(c.vout)))
                     + (EncodeOuts(codec, c.vout) + (VarBytes(c.nHeight, true) + tail)))
         == Some((CoinSet(c.fCoinBase, c.vout, Reread(c.nHeight), nVersion), tail))
  {
    var mask := MaskBytes(Mask(c.vout));
    CodeFields(c);
    ReadMaskBack(mask, EncodeOuts(codec, c.vout) + (VarBytes(c.nHeight, true) + tail));
    AllBits(c.vout);
    ReadOutsBack(codec, c, nVersion, Code(c), [First(c.vout), Second(c.vout)] + BitsOf(Strip(mask)), tail);
  }

  lemma Assoc(a: seq<Byte>, b: seq<Byte>, c: seq<Byte>, d: seq<Byte>, e: seq<Byte>, tail: seq<Byte>)
    ensures a + (b + (c + (d + e))) + tail == a + (b + (c + (d + (e + tail))))
  {
  }

  /** Reading back, with the two numbers replaced by what the variable-length form makes of them. */
  lemma UnserializeSerialized(codec: OutCodec, c: CoinSet, tail: seq<Byte>)
    requires Invertible(codec) && Clean(c) && !IsPruned(c)
    ensures Unserialized(codec, Serialized(codec, c) + tail)
         == Some((CoinSet(c.fCoinBase, c.vout, Reread(c.nHeight), Reread(c.nVersion)), tail))
  {
    var mask, outs := Strip(MaskBytes(Mask(c.vout))), EncodeOuts(codec, c.vout);
    var body := mask + (outs + (VarBytes(c.nHeight, true) + tail));
    Assoc(VarBytes(c.nVersion, true), VarBytes(Code(c), true), mask, outs, VarBytes(c.nHeight, true), tail);
    ReadBodyBack(codec, c, Reread(c.nVersion), tail);
    Rereads(c.nVersion, VarBytes(Code(c), true) + body);
    ReadWrite(Code(c), body);
  }

  function Reread(n: int): nat {
    if n < 0 then n % 128 else n
  }

  lemma Rereads(n: int, tail: seq<Byte>)
    ensures ReadVarInt(VarBytes(n, true) + tail) == Some((Reread(n), tail))
  {
    if n < 0 {
      ReadWriteNegative(n, tail);
    } else {
      ReadWrite(n, tail);
    }
  }

  lemma RestoredTrims(outs: seq<TxOut>, avail: seq<bool>, vout: seq<TxOut>)
    requires Restored(outs, avail, vout) && SameFlags(avail, Avail(vout))
    requires vout == [] || !vout[|vout| - 1].Null?
    ensures Trim(outs) == vout
  {
    var r := Trim(outs);
    forall i | 0 <= i < |vout| && !vout[i].Null?
      ensures i < |r| && r[i] == vout[i]
    {
      assert Avail(vout)[i];
      assert outs[i] == vout[i];
    }
    CleanUnique(r, vout);
  }

  /**
   Serializing and reading back is the identity on every trimmed coin set with something unspent,
   exactly when its version and height are not negative.
   */
  lemma RoundTripIffNonnegative(codec: OutCodec, c: CoinSet, tail: seq<Byte>)
    requires Invertible(codec) && Clean(c) && !IsPruned(c)
    ensures Unserialized(codec, Serialized(codec, c) + tail) == Some((c, tail)) <==> c.nVersion >= 0 && c.nHeight >= 0
  {
    UnserializeSerialized(codec, c, tail);
  }
}
