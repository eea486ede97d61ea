/** The variable-length integers of the serializer: base 128, most significant group first, no redundancy. */
module VarInt {
  import opened Options

  type Byte = n: nat | n < 256

  /** The groups of n; every byte but the last of a number carries the continuation bit. */
  function VarBytes(n: int, last: bool): (r: seq<Byte>)
    ensures |r| > 0
    decreases n
  {
    var b := n % 128 + if last then 0 else 128;
    if n <= 0x7F then [b] else VarBytes(n / 128 - 1, false) + [b]
  }

  /** Reading on with n accumulated so far; None when the bytes run out. */
  function ReadFrom(s: seq<Byte>, n: nat): Option<(nat, seq<Byte>)> {
    if s == [] then None
    else
      var v := n * 128 + s[0] % 128;
      if s[0] >= 128 then ReadFrom(s[1..], v + 1) else Some((v, s[1..]))
  }

  function ReadVarInt(s: seq<Byte>): Option<(nat, seq<Byte>)> {
    ReadFrom(s, 0)
  }

  lemma {:induction false} ReadContinued(n: nat, tail: seq<Byte>)
    ensures ReadFrom(VarBytes(n, false) + tail, 0) == ReadFrom(tail, n + 1)
    decreases n
  {
    var b := n % 128 + 128;
    if n <= 0x7F {
      assert ([b] + tail)[1..] == tail;
    } else {
      var head := VarBytes(n / 128 - 1, false);
      assert head + [b] + tail == head + ([b] + tail);
      ReadContinued(n / 128 - 1, [b] + tail);
      assert ([b] + tail)[1..] == tail;
    }
  }

  /** What was written for a number is read back, and nothing after it is touched. */
  lemma ReadWrite(n: nat, tail: seq<Byte>)
    ensures ReadVarInt(VarBytes(n, true) + tail) == Some((n, tail))
  {
    var b := n % 128;
    ReadLast(b, tail, 0);
    if n > 0x7F {
      var head := VarBytes(n / 128 - 1, false);
      assert head + [b] + tail == head + ([b] + tail);
      hide ReadFrom;
      ReadContinued(n / 128 - 1, [b] + tail);
      ReadLast(b, tail, n / 128);
    }
  }

  lemma ReadLast(b: Byte, tail: seq<Byte>, n: nat)
    requires b < 128
    ensures ReadFrom([b] + tail, n) == Some((n * 128 + b, tail))
  {
    assert ([b] + tail)[1..] == tail;
  }

  /** A negative number is written as one byte and comes back as a number below 128. */
  lemma ReadWriteNegative(n: int, tail: seq<Byte>)
    requires n < 0
    ensures ReadVarInt(VarBytes(n, true) + tail) == Some((n % 128, tail))
  {
    assert ([n % 128] + tail)[1..] == tail;
  }

  method WriteVarInt(value: int) returns (out: seq<Byte>)
    ensures out == VarBytes(value, true)
  {
    var n := value;
    var tmp: seq<Byte> := [n % 128];
    while n > 0x7F
      invariant n <= value && |tmp| > 0 && (n > 0x7F ==> value > 0x7F)
      invariant tmp[0] == n % 128 + (if |tmp| == 1 then 0 else 128)
      invariant if n <= 0x7F then tmp == VarBytes(value, true)
                else VarBytes(value, true) == VarBytes(n / 128 - 1, false) + tmp
      decreases n
    {
      ghost var before := tmp;
      ghost var m := n / 128 - 1;
      n := n / 128 - 1;
      tmp := [n % 128 + 128] + tmp;
      if m > 0x7F {
        assert VarBytes(m / 128 - 1, false) + [m % 128 + 128] + before
            == VarBytes(m / 128 - 1, false) + ([m % 128 + 128] + before);
      }
    }
    out := tmp;
  }

  lemma {:induction false} SameLength(n: int)
    ensures |VarBytes(n, true)| == |VarBytes(n, false)|
  {
  }

  /** The number of bytes that writing a number takes. */
  method GetSizeOfVarInt(value: int) returns (nRet: nat)
    ensures nRet == |VarBytes(value, true)|
  {
    SameLength(value);
    var n := value;
    nRet := 1;
    while n > 0x7F
      invariant n <= value && nRet + |VarBytes(n, false)| == |VarBytes(value, true)| + 1
      decreases n
    {
      nRet := nRet + 1;
      n := n / 128 - 1;
    }
  }

  /** Read on after the groups of m, the bytes taken are those of the number that results. */
  lemma {:induction false} ReadUnique(s: seq<Byte>, m: nat)
    requires ReadFrom(s, m + 1).Some?
    ensures var (n, rest) := ReadFrom(s, m + 1).value; VarBytes(m, false) + s == VarBytes(n, true) + rest
    decreases |s|
  {
    var b, v := s[0], (m + 1) * 128 + s[0] % 128;
    assert v / 128 - 1 == m && v % 128 == b % 128;
    assert VarBytes(m, false) + s == VarBytes(m, false) + [b] + s[1..];
    if b >= 128 {
      ReadUnique(s[1..], v);
    }
  }

  /** There is no other way to write a number. */
  lemma WriteRead(s: seq<Byte>)
    requires ReadVarInt(s).Some?
    ensures var (n, rest) := ReadVarInt(s).value; s == VarBytes(n, true) + rest
  {
    if s[0] >= 128 {
      ReadUnique(s[1..], s[0] % 128);
      assert VarBytes(s[0] % 128, false) == [s[0]];
      assert [s[0]] + s[1..] == s;
    } else {
      assert [s[0]] + s[1..] == s;
    }
  }
}
