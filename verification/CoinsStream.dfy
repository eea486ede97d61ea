/** The loops that size, write and read a coin set, tied to CoinsCodec. */
module CoinsStream {
  import opened Options
  import opened Numbers
  import opened Coins
  import opened VarInt
  import opened CoinsCodec

  // ---------- the mask, byte by byte ----------

  lemma {:induction false} MaskBytesLength(a: seq<bool>)
    ensures |MaskBytes(a)| == (|a| + 7) / 8
    decreases |a|
  {
    if a != [] {
      MaskBytesLength(a[Min(8, |a|)..]);
    }
  }

  lemma {:induction false} MaskBytesAt(a: seq<bool>, b: nat)
    requires 8 * b < |a|
    ensures b < |MaskBytes(a)| && MaskBytes(a)[b] == ByteOf(a[8 * b..Min(8 * b + 8, |a|)])
    decreases b
  {
    hide MaskBytes;
    hide ByteOf;
    if b == 0 {
      MaskBytesFirst(a);
    } else {
      MaskBytesAt(a[8..], b - 1);
      MaskBytesNext(a, b);
      SubSlice(a, 8, 8 * b, Min(8 * b + 8, |a|));
    }
  }

  lemma MaskBytesFirst(a: seq<bool>)
    requires a != []
    ensures |MaskBytes(a)| > 0 && MaskBytes(a)[0] == ByteOf(a[0..Min(8, |a|)])
  {
    hide ByteOf;
    assert a[0..Min(8, |a|)] == a[..Min(8, |a|)];
  }

  lemma MaskBytesNext(a: seq<bool>, b: nat)
    requires |a| > 8 && 0 < b
    ensures |MaskBytes(a)| == |MaskBytes(a[8..])| + 1
    ensures b < |MaskBytes(a)| ==> MaskBytes(a)[b] == MaskBytes(a[8..])[b - 1]
  {
  }

  lemma SubSlice(a: seq<bool>, k: nat, from: nat, to: nat)
    requires k <= from <= to <= |a|
    ensures a[k..][from - k..to - k] == a[from..to]
  {
  }

  lemma {:induction false} StripSnoc(bytes: seq<Byte>, x: Byte)
    ensures Strip(bytes + [x]) == if x == 0 then Strip(bytes) else bytes + [x]
    ensures Nonzero(bytes + [x]) == Nonzero(bytes) + if x == 0 then 0 else 1
  {
    if bytes != [] {
      assert (bytes + [x])[1..] == bytes[1..] + [x];
      StripSnoc(bytes[1..], x);
    }
  }

  lemma {:induction false} ByteOfSnoc(bits: seq<bool>, x: bool)
    ensures ByteOf(bits + [x]) == ByteOf(bits) + if x then Pow(2, |bits|) else 0
  {
    if bits != [] {
      assert (bits + [x])[1..] == bits[1..] + [x];
      ByteOfSnoc(bits[1..], x);
    }
  }

  lemma {:induction false} StripPrefix(bytes: seq<Byte>)
    ensures Strip(bytes) <= bytes
  {
    if bytes != [] {
      StripPrefix(bytes[1..]);
    }
  }

  /** The availabilities of at most eight outputs. */
  ghost function Part(vout: seq<TxOut>, from: nat): (r: seq<bool>)
    requires from <= |vout|
    ensures |r| == Min(8, |vout| - from) && forall i :: 0 <= i < |r| ==> r[i] == !vout[from + i].Null?
  {
    seq(Min(8, |vout| - from), i requires 0 <= i < Min(8, |vout| - from) => !vout[from + i].Null?)
  }

  lemma PartIsByte(vout: seq<TxOut>, b: nat)
    requires 2 + b * 8 < |vout|
    ensures b < |MaskBytes(Mask(vout))| && MaskBytes(Mask(vout))[b] == ByteOf(Part(vout, 2 + b * 8)) < 256
  {
    hide MaskBytes;
    var a := Mask(vout);
    MaskBytesAt(a, b);
    assert a[8 * b..Min(8 * b + 8, |a|)] == Part(vout, 2 + b * 8);
  }

  /** One byte of the mask, with its bits set one after the other. */
  method MaskByte(vout: seq<TxOut>, b: nat) returns (chAvail: Byte)
    requires 2 + b * 8 < |vout|
    ensures b < |MaskBytes(Mask(vout))| && chAvail == MaskBytes(Mask(vout))[b]
  {
    hide MaskBytes;
    var ch := PartByte(vout, 2 + b * 8);
    PartIsByte(vout, b);
    chAvail := ch;
  }

  method PartByte(vout: seq<TxOut>, from: nat) returns (ch: nat)
    requires from <= |vout|
    ensures ch == ByteOf(Part(vout, from))
  {
    ghost var part := Part(vout, from);
    ch := 0;
    var i := 0;
    while i < 8 && from + i < |vout|
      invariant 0 <= i <= |part|
      invariant ch == ByteOf(part[..i])
    {
      assert part[..i + 1] == part[..i] + [part[i]];
      ByteOfSnoc(part[..i], part[i]);
      if !vout[from + i].Null? {
        ch := ch + Pow(2, i);
      }
      i := i + 1;
    }
    assert part[..i] == part;
  }

  /** Length of the mask, and how many of its bytes are not zero. */
  method CalcMaskSize(vout: seq<TxOut>) returns (nBytes: nat, nNonzeroBytes: nat)
    ensures nBytes == |Strip(MaskBytes(Mask(vout)))|
    ensures nNonzeroBytes == Nonzero(MaskBytes(Mask(vout)))
  {
    ghost var a := Mask(vout);
    ghost var bytes := MaskBytes(a);
    MaskBytesLength(a);
    var b := 0;
    nBytes, nNonzeroBytes := 0, 0;
    while 2 + b * 8 < |vout|
      invariant b <= |bytes|
      invariant nBytes == |Strip(bytes[..b])| && nNonzeroBytes == Nonzero(bytes[..b])
      decreases |bytes| - b
    {
      var fZero := ByteIsZero(vout, b);
      assert bytes[..b + 1] == bytes[..b] + [bytes[b]];
      StripSnoc(bytes[..b], bytes[b]);
      if !fZero {
        nBytes := b + 1;
        nNonzeroBytes := nNonzeroBytes + 1;
      }
      b := b + 1;
    }
    assert bytes[..b] == bytes;
  }

  method ByteIsZero(vout: seq<TxOut>, b: nat) returns (fZero: bool)
    requires 2 + b * 8 < |vout|
    ensures b < |MaskBytes(Mask(vout))| && fZero == (MaskBytes(Mask(vout))[b] == 0)
  {
    hide MaskBytes;
    fZero := PartIsZero(vout, 2 + b * 8);
    ByteOfBound(Part(vout, 2 + b * 8));
    PartIsByte(vout, b);
  }

  method PartIsZero(vout: seq<TxOut>, from: nat) returns (fZero: bool)
    requires from <= |vout|
    ensures fZero <==> forall j :: 0 <= j < |Part(vout, from)| ==> !Part(vout, from)[j]
  {
    ghost var part := Part(vout, from);
    fZero := true;
    var i := 0;
    while i < 8 && from + i < |vout|
      invariant 0 <= i <= |part|
      invariant fZero <==> forall j :: 0 <= j < i ==> !part[j]
    {
      if !vout[from + i].Null? {
        assert part[i];
        fZero := false;
      }
      i := i + 1;
    }
  }

  // ---------- writing ----------

  method Serialize(codec: OutCodec, c: CoinSet) returns (s: seq<Byte>)
    requires !IsPruned(c)
    ensures s == Serialized(codec, c)
  {
    ghost var mask := MaskBytes(Mask(c.vout));
    var nMaskSize, nMaskCode := CalcMaskSize(c.vout);
    var fFirst, fSecond := First(c.vout), Second(c.vout);
    CodeIsNat(c);
    assert fFirst || fSecond || nMaskCode > 0;
    var nCode := 8 * (nMaskCode - (if fFirst || fSecond then 0 else 1))
      + (if c.fCoinBase then 1 else 0) + (if fFirst then 2 else 0) + (if fSecond then 4 else 0);
    var version := WriteVarInt(c.nVersion);
    var code := WriteVarInt(nCode);
    var bytes := WriteMask(c.vout, nMaskSize);
    var outs := WriteOuts(codec, c.vout);
    var height := WriteVarInt(c.nHeight);
    s := version + (code + (bytes + (outs + height)));
  }

  method WriteMask(vout: seq<TxOut>, nMaskSize: nat) returns (bytes: seq<Byte>)
    requires nMaskSize == |Strip(MaskBytes(Mask(vout)))|
    ensures bytes == Strip(MaskBytes(Mask(vout)))
  {
    ghost var mask := MaskBytes(Mask(vout));
    StripPrefix(mask);
    MaskBytesLength(Mask(vout));
    bytes := [];
    for b := 0 to nMaskSize
      invariant bytes == mask[..b]
    {
      var ch := MaskByte(vout, b);
      bytes := bytes + [ch];
    }
  }

  lemma {:induction false} EncodeOutsSnoc(codec: OutCodec, vout: seq<TxOut>, o: TxOut)
    ensures EncodeOuts(codec, vout + [o]) == EncodeOuts(codec, vout) + if o.Null? then [] else codec.enc(o)
  {
    if vout != [] {
      assert (vout + [o])[1..] == vout[1..] + [o];
      EncodeOutsSnoc(codec, vout[1..], o);
    }
  }

  method WriteOuts(codec: OutCodec, vout: seq<TxOut>) returns (s: seq<Byte>)
    ensures s == EncodeOuts(codec, vout)
  {
    s := [];
    for i := 0 to |vout|
      invariant s == EncodeOuts(codec, vout[..i])
    {
      assert vout[..i + 1] == vout[..i] + [vout[i]];
      EncodeOutsSnoc(codec, vout[..i], vout[i]);
      if !vout[i].Null? {
        s := s + codec.enc(vout[i]);
      }
    }
    assert vout[..|vout|] == vout;
  }

  /** The size announced for a coin set is the number of bytes written for it. */
  method GetSerializeSize(codec: OutCodec, c: CoinSet) returns (nSize: nat)
    requires !IsPruned(c)
    ensures nSize == |Serialized(codec, c)|
  {
    var nMaskSize, nMaskCode := CalcMaskSize(c.vout);
    var fFirst, fSecond := First(c.vout), Second(c.vout);
    CodeIsNat(c);
    var nCode := 8 * (nMaskCode - (if fFirst || fSecond then 0 else 1))
      + (if c.fCoinBase then 1 else 0) + (if fFirst then 2 else 0) + (if fSecond then 4 else 0);
    var version := GetSizeOfVarInt(c.nVersion);
    var code := GetSizeOfVarInt(nCode);
    var outs := OutsSize(codec, c.vout);
    var height := GetSizeOfVarInt(c.nHeight);
    nSize := version + code + nMaskSize + outs + height;
    Lengths(VarBytes(c.nVersion, true), VarBytes(nCode, true), Strip(MaskBytes(Mask(c.vout))),
            EncodeOuts(codec, c.vout), VarBytes(c.nHeight, true));
  }

  lemma Lengths(a: seq<Byte>, b: seq<Byte>, c: seq<Byte>, d: seq<Byte>, e: seq<Byte>)
    ensures |a + (b + (c + (d + e)))| == |a| + |b| + |c| + |d| + |e|
  {
  }

  method OutsSize(codec: OutCodec, vout: seq<TxOut>) returns (nSize: nat)
    ensures nSize == |EncodeOuts(codec, vout)|
  {
    nSize := 0;
    for i := 0 to |vout|
      invariant nSize == |EncodeOuts(codec, vout[..i])|
    {
      assert vout[..i + 1] == vout[..i] + [vout[i]];
      EncodeOutsSnoc(codec, vout[..i], vout[i]);
      if !vout[i].Null? {
        nSize := nSize + |codec.enc(vout[i])|;
      }
    }
    assert vout[..|vout|] == vout;
  }

  // ---------- reading ----------

  method GetVarInt(s: seq<Byte>) returns (r: Option<(nat, seq<Byte>)>)
    ensures r == ReadVarInt(s)
  {
    var n: nat, rest := 0, s;
    while true
      invariant ReadFrom(rest, n) == ReadVarInt(s)
      decreases |rest|
    {
      if rest == [] {
        return None;
      }
      var chData := rest[0];
      n, rest := n * 128 + chData % 128, rest[1..];
      if chData >= 128 {
        n := n + 1;
      } else {
        return Some((n, rest));
      }
    }
  }

  /** The result of reading on, with bits already read put in front. */
  function Prepend(bits: seq<bool>, r: Option<(seq<bool>, seq<Byte>)>): Option<(seq<bool>, seq<Byte>)> {
    match r
    case None => None
    case Some((more, rest)) => Some((bits + more, rest))
  }

  lemma PrependNothing(r: Option<(seq<bool>, seq<Byte>)>)
    ensures Prepend([], r) == r
  {
    if r.Some? {
      assert [] + r.value.0 == r.value.0;
    }
  }

  lemma PrependTwice(x: seq<bool>, y: seq<bool>, r: Option<(seq<bool>, seq<Byte>)>)
    ensures Prepend(x, Prepend(y, r)) == Prepend(x + y, r)
  {
    if r.Some? {
      assert x + y + r.value.0 == x + (y + r.value.0);
    }
  }

  method GetMask(s: seq<Byte>, maskCode: nat) returns (r: Option<(seq<bool>, seq<Byte>)>)
    ensures r == ReadMask(s, maskCode)
  {
    var nMaskCode, rest := maskCode, s;
    var vAvail: seq<bool> := [];
    PrependNothing(ReadMask(s, maskCode));
    while nMaskCode > 0
      invariant Prepend(vAvail, ReadMask(rest, nMaskCode)) == ReadMask(s, maskCode)
      decreases |rest|
    {
      if rest == [] {
        return None;
      }
      var chAvail := rest[0];
      ghost var before, k := rest, nMaskCode;
      rest := rest[1..];
      var bits := seq(8, p requires 0 <= p < 8 => BitOf(chAvail, p));
      if chAvail != 0 {
        nMaskCode := nMaskCode - 1;
      }
      assert ReadMask(before, k) == Prepend(bits, ReadMask(rest, nMaskCode));
      PrependTwice(vAvail, bits, ReadMask(rest, nMaskCode));
      vAvail := vAvail + bits;
    }
    assert vAvail + [] == vAvail;
    r := Some((vAvail, rest));
  }

  function PrependOuts(outs: seq<TxOut>, r: Option<(seq<TxOut>, seq<Byte>)>): Option<(seq<TxOut>, seq<Byte>)> {
    match r
    case None => None
    case Some((more, rest)) => Some((outs + more, rest))
  }

  lemma PrependNoOuts(r: Option<(seq<TxOut>, seq<Byte>)>)
    ensures PrependOuts([], r) == r
  {
    if r.Some? {
      assert [] + r.value.0 == r.value.0;
    }
  }

  lemma PrependOutsTwice(x: seq<TxOut>, y: seq<TxOut>, r: Option<(seq<TxOut>, seq<Byte>)>)
    ensures PrependOuts(x, PrependOuts(y, r)) == PrependOuts(x + y, r)
  {
    if r.Some? {
      assert x + y + r.value.0 == x + (y + r.value.0);
    }
  }

  method GetOuts(codec: OutCodec, vAvail: seq<bool>, s: seq<Byte>) returns (r: Option<(seq<TxOut>, seq<Byte>)>)
    ensures r == DecodeOuts(codec, vAvail, s)
  {
    var vout: seq<TxOut>, rest := [], s;
    assert vAvail[0..] == vAvail;
    PrependNoOuts(DecodeOuts(codec, vAvail, s));
    for i := 0 to |vAvail|
      invariant |vout| == i
      invariant PrependOuts(vout, DecodeOuts(codec, vAvail[i..], rest)) == DecodeOuts(codec, vAvail, s)
    {
      ghost var before := rest;
      var o := Null;
      if vAvail[i] {
        var d := codec.dec(rest);
        if d == None {
          return None;
        }
        o, rest := d.value.0, d.value.1;
      }
      assert vAvail[i..][1..] == vAvail[i + 1..];
      assert DecodeOuts(codec, vAvail[i..], before) == PrependOuts([o], DecodeOuts(codec, vAvail[i + 1..], rest));
      PrependOutsTwice(vout, [o], DecodeOuts(codec, vAvail[i + 1..], rest));
      vout := vout + [o];
    }
    assert vAvail[|vAvail|..] == [] && vout + [] == vout;
    r := Some((vout, rest));
  }

  method Unserialize(codec: OutCodec, s: seq<Byte>) returns (r: Option<(CoinSet, seq<Byte>)>)
    ensures r == Unserialized(codec, s)
  {
    var version := GetVarInt(s);
    if version == None {
      return None;
    }
    var code := GetVarInt(version.value.1);
    if code == None {
      return None;
    }
    var nCode := code.value.0;
    var nMaskCode := nCode / 8 + if BitOf(nCode, 1) || BitOf(nCode, 2) then 0 else 1;
    var mask := GetMask(code.value.1, nMaskCode);
    if mask == None {
      return None;
    }
    var outs := GetOuts(codec, [BitOf(nCode, 1), BitOf(nCode, 2)] + mask.value.0, mask.value.1);
    if outs == None {
      return None;
    }
    var height := GetVarInt(outs.value.1);
    if height == None {
      return None;
    }
    var vout := Cleanup(outs.value.0);
    r := Some((CoinSet(BitOf(nCode, 0), vout, height.value.0, version.value.0), height.value.1));
  }
}
