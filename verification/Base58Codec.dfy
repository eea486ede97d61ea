/** The base58 routines with their digit buffers, proved against the text they stand for. */
module Base58Codec {
  import opened Options
  import opened Numbers
  import opened Digits
  import opened Base58

  /** A number below base^n leaves nothing over. */
  lemma NoCarry(v: nat, carry: nat, p: nat, w: nat)
    requires v + carry * p == w && w < p
    ensures carry == 0
  {
    if carry > 0 { MulMonotone(p, 1, carry); }
  }

  lemma {:induction false} NumPrefixBound(s: seq<int>, base: nat, k: nat, p: nat)
    requires InBase(s, base) && base > 0 && k < |s| && Pow(base, |s|) <= p
    ensures 0 <= Num(s[..k], base) * base + s[k] < p && Num(s[..k + 1], base) == Num(s[..k], base) * base + s[k]
  {
    assert s[..k + 1][..k] == s[..k];
    NumBound(s[..k + 1], base);
    PowMonotone(base, k + 1, |s|);
  }

  /** Write all digits of s, in base `from`, into a buffer of another base; the buffer must be large enough. */
  method Convert(s: seq<int>, from: nat, buf: array<int>, base: nat)
    requires InBase(s, from) && from > 1 && base > 1 && Pow(from, |s|) <= Pow(base, buf.Length)
    requires forall i :: 0 <= i < buf.Length ==> buf[i] == 0
    modifies buf
    ensures InBase(buf[..], base) && Num(buf[..], base) == Num(s, from)
  {
    hide Pow;
    ghost var p := Pow(base, buf.Length);
    AllZero(buf[..], base);
    for k := 0 to |s|
      invariant InBase(buf[..], base) && Num(buf[..], base) == Num(s[..k], from)
    {
      NumPrefixBound(s, from, k, p);
      NumBound(buf[..], base);
      ghost var w := Num(s[..k], from) * from + s[k];
      var carry := MulAdd(buf, base, from, s[k]);
      NumBound(buf[..], base);
      NoCarry(Num(buf[..], base), carry, p, w);
      assert carry == 0;
    }
    assert s[..|s|] == s;
  }

  lemma {:induction false} AllZero(s: seq<int>, base: nat)
    requires forall i :: 0 <= i < |s| ==> s[i] == 0
    ensures Num(s, base) == 0
  {
    if s != [] {
      AllZero(s[..|s| - 1], base);
    }
  }

  /** The digits in a buffer behind its leading zeros. */
  lemma SkipZeros(s: seq<int>, base: nat, k: nat)
    requires InBase(s, base) && base > 1 && k <= |s|
    requires (forall i :: 0 <= i < k ==> s[i] == 0) && (k < |s| ==> s[k] != 0)
    ensures Num(s, base) >= 0 && s[k..] == DigitsOf(Num(s, base), base)
  {
    NumSkipZeros(s, base, k);
    DigitsOfNum(s[k..], base);
  }

  method EncodeBase58(v: Bytes) returns (str: string)
    requires InBase(v, 256)
    ensures str == Encode(v)
  {
    hide Pow;
    hide Num;
    hide DigitsOf;
    var zeroes := 0;
    while zeroes < |v| && v[zeroes] == 0
      invariant zeroes <= |v| && forall i :: 0 <= i < zeroes ==> v[i] == 0
    {
      zeroes := zeroes + 1;
    }
    CountZeros(v, zeroes);
    var rest := v[zeroes..];
    NumSkipZeros(v, 256, zeroes);
    EncodeRatio();
    RatioFits(256, 58, 138, 100, |rest|);
    var b58 := new int[|rest| * 138 / 100 + 1](_ => 0);
    Convert(rest, 256, b58, 58);
    var it := SkipLeading(b58);
    SkipZeros(b58[..], 58, it);
    str := Ones(zeroes) + Text(b58[it..]);
  }

  method SkipLeading(buf: array<int>) returns (it: nat)
    ensures it <= buf.Length && (forall i :: 0 <= i < it ==> buf[i] == 0) && (it < buf.Length ==> buf[it] != 0)
  {
    it := 0;
    while it < buf.Length && buf[it] == 0
      invariant it <= buf.Length && forall i :: 0 <= i < it ==> buf[i] == 0
    {
      it := it + 1;
    }
  }

  // ---------- decoding ----------

  lemma FirstIs(s: string, a: nat)
    requires a <= |s| && (forall i :: 0 <= i < a ==> IsSpace(s[i])) && (a < |s| ==> !IsSpace(s[a]))
    ensures First(s) == a
  {
    var n := First(s);
    assert n < |s| ==> !IsSpace(s[n]);
  }

  lemma LastIs(s: string, b: nat)
    requires b <= |s| && (forall i :: b <= i < |s| ==> IsSpace(s[i])) && (b > 0 ==> !IsSpace(s[b - 1]))
    ensures Last(s) == b
  {
    var n := Last(s);
    assert n > 0 ==> !IsSpace(s[n - 1]);
  }

  /** A run of characters between white space is what stripping leaves. */
  lemma StripIs(s: string, a: nat, b: nat)
    requires a <= b <= |s| && (forall i :: 0 <= i < a ==> IsSpace(s[i])) && (forall i :: a <= i < b ==> !IsSpace(s[i]))
    requires forall i :: b <= i < |s| ==> IsSpace(s[i])
    ensures Strip(s) == s[a..b]
  {
    if a < b {
      FirstIs(s, a);
      LastIs(s, b);
    } else {
      AllSpaces(s);
    }
  }

  lemma AllSpaces(s: string)
    requires forall i :: 0 <= i < |s| ==> IsSpace(s[i])
    ensures Strip(s) == ""
  {
    FirstIs(s, |s|);
  }

  /** A character that is no digit, with nothing but digits of the run before it, spoils the text. */
  lemma BadCharacter(s: string, a: nat, i: nat, j: nat)
    requires a <= i <= j < |s| && (forall k :: 0 <= k < a ==> IsSpace(s[k])) && !IsSpace(s[a]) && !IsSpace(s[j])
    requires Value(s[i]) < 0
    ensures !AllDigits(Strip(s))
  {
    FirstIs(s, a);
    assert Last(s) > j;
    assert Strip(s)[i - a] == s[i];
  }

  lemma SpaceIsNoDigit(c: char)
    requires IsSpace(c)
    ensures Value(c) < 0
  {
    if Value(c) >= 0 {
      NoSpaceInAlphabet(Value(c));
    }
  }

  /** Read characters into the buffer up to white space or to a character that is no digit. */
  method ReadDigits(s: string, z: nat, b256: array<int>) returns (b: nat)
    requires z <= |s| && Pow(58, |s| - z) <= Pow(256, b256.Length) && forall i :: 0 <= i < b256.Length ==> b256[i] == 0
    modifies b256
    ensures z <= b <= |s| && (forall i :: z <= i < b ==> !IsSpace(s[i])) && AllDigits(s[z..b])
    ensures b < |s| ==> IsSpace(s[b]) || Value(s[b]) == -1
    ensures InBase(b256[..], 256) && Num(b256[..], 256) == Num(Values(s[z..b]), 58)
  {
    hide Num;
    hide Pow;
    hide Value;
    hide IsSpace;
    AllZero(b256[..], 256);
    NoDigits();
    ghost var p := Pow(256, b256.Length);
    b := z;
    assert s[z..b] == "" && Values(s[z..b]) == [];
    while b < |s| && !IsSpace(s[b])
      invariant z <= b <= |s| && (forall i :: z <= i < b ==> !IsSpace(s[i])) && AllDigits(s[z..b])
      invariant InBase(b256[..], 256) && Num(b256[..], 256) == Num(Values(s[z..b]), 58)
    {
      var ch := Value(s[b]);
      if ch == -1 { return; }
      MoreDigits(s, z, b, p);
      ghost var w := Num(Values(s[z..b]), 58) * 58 + ch;
      var carry := MulAdd(b256, 256, 58, ch);
      NumBound(b256[..], 256);
      NoCarry(Num(b256[..], 256), carry, p, w);
      assert carry == 0;
      b := b + 1;
    }
  }

  method DecodeBase58(s: string) returns (ok: bool, vch: Bytes)
    ensures ok <==> Decode(s).Some?
    ensures ok ==> vch == Decode(s).value
  {
    hide Num;
    hide Pow;
    hide DigitsOf;
    hide Value;
    hide IsSpace;
    hide LeadingZeros;
    hide Strip;
    vch := [];
    var a := 0;
    while a < |s| && IsSpace(s[a])
      invariant a <= |s| && forall i :: 0 <= i < a ==> IsSpace(s[i])
    {
      a := a + 1;
    }
    OneIsZero();
    var z := a;
    while z < |s| && s[z] == '1'
      invariant a <= z <= |s| && forall i :: a <= i < z ==> s[i] == '1'
    {
      z := z + 1;
    }
    DecodeRatio();
    RatioFits(58, 256, 733, 1000, |s| - z);
    var b256 := new int[(|s| - z) * 733 / 1000 + 1](_ => 0);
    var b := ReadDigits(s, z, b256);
    if b < |s| && !IsSpace(s[b]) {
      BadCharacter(s, a, b, b);
      return false, [];
    }
    var e := b;
    while e < |s| && IsSpace(s[e])
      invariant b <= e <= |s| && forall i :: b <= i < e ==> IsSpace(s[i])
    {
      e := e + 1;
    }
    if e < |s| {
      SpaceIsNoDigit(s[b]);
      BadCharacter(s, a, b, e);
      return false, [];
    }
    StripIs(s, a, b);
    OnesFirst(s, a, z, b);
    var it := SkipLeading(b256);
    SkipZeros(b256[..], 256, it);
    ok := true;
    vch := Zeros(z - a) + b256[it..];
  }

  lemma NoDigits()
    ensures Num([], 58) == 0
  {
  }

  lemma OneIsZero()
    ensures Value('1') == 0 && !IsSpace('1')
  {
    AlphabetSize();
    ValueOfDigit(0);
  }

  /** One more digit still fits the buffer. */
  lemma MoreDigits(s: string, z: nat, b: nat, p: nat)
    requires z <= b < |s| && AllDigits(s[z..b]) && Value(s[b]) >= 0 && Pow(58, |s| - z) <= p
    ensures AllDigits(s[z..b + 1]) && Num(Values(s[z..b + 1]), 58) == Num(Values(s[z..b]), 58) * 58 + Value(s[b])
    ensures 0 <= Num(Values(s[z..b]), 58) * 58 + Value(s[b]) < p
  {
    hide Pow;
    hide Value;
    assert s[z..b + 1] == s[z..b] + [s[b]];
    var d, d' := Values(s[z..b]), Values(s[z..b + 1]);
    assert d' == d + [Value(s[b])];
    assert d'[..|d|] == d;
    NumBound(d', 58);
    PowMonotone(58, b + 1 - z, |s| - z);
  }

  /** The ones in front are the leading zeros of the whole. */
  lemma OnesFirst(s: string, a: nat, z: nat, b: nat)
    requires a <= z <= b <= |s| && (forall i :: a <= i < z ==> s[i] == '1') && (z < b ==> s[z] != '1')
             && AllDigits(s[z..b])
    ensures AllDigits(s[a..b]) && LeadingZeros(Values(s[a..b])) == z - a
    ensures Num(Values(s[a..b]), 58) == Num(Values(s[z..b]), 58)
  {
    hide Value;
    hide Num;
    hide LeadingZeros;
    OneIsZero();
    var t := s[a..b];
    forall i | 0 <= i < |t|
      ensures Value(t[i]) >= 0
    {
      if a + i >= z { assert t[i] == s[z..b][a + i - z]; }
    }
    var d := Values(t);
    if z < b { AlphabetSize(); assert s[z..b][0] == s[z]; }
    CountZeros(d, z - a);
    NumSkipZeros(d, 58, z - a);
    assert d[z - a..] == Values(s[z..b]);
  }

  // ---------- with a checksum ----------

  /** Four bytes of a hash. */
  ghost predicate Checksum(h: Bytes -> Bytes) {
    forall v :: |h(v)| == 4 && InBase(h(v), 256)
  }

  ghost function EncodeCheck(h: Bytes -> Bytes, v: Bytes): string
    requires Checksum(h) && InBase(v, 256)
  {
    Encode(v + h(v))
  }

  ghost function DecodeCheck(h: Bytes -> Bytes, s: string): Option<Bytes> {
    match Decode(s)
    case None => None
    case Some(w) => if |w| < 4 || h(w[..|w| - 4]) != w[|w| - 4..] then None else Some(w[..|w| - 4])
  }

  lemma CheckRoundTrip(h: Bytes -> Bytes, v: Bytes)
    requires Checksum(h) && InBase(v, 256)
    ensures DecodeCheck(h, EncodeCheck(h, v)) == Some(v)
  {
    var w := v + h(v);
    DecodeEncode(w);
    assert w[..|w| - 4] == v && w[|w| - 4..] == h(v);
  }

  lemma CheckIsCanonical(h: Bytes -> Bytes, s: string)
    requires Checksum(h) && DecodeCheck(h, s).Some?
    ensures InBase(DecodeCheck(h, s).value, 256) && EncodeCheck(h, DecodeCheck(h, s).value) == Strip(s)
  {
    hide Decode;
    hide Encode;
    hide Strip;
    EncodeDecode(s);
    var w := Decode(s).value;
    assert w == w[..|w| - 4] + w[|w| - 4..];
  }

  method EncodeBase58Check(h: Bytes -> Bytes, vchIn: Bytes) returns (str: string)
    requires Checksum(h) && InBase(vchIn, 256)
    ensures str == EncodeCheck(h, vchIn)
  {
    str := EncodeBase58(vchIn + h(vchIn));
  }

  method DecodeBase58Check(h: Bytes -> Bytes, s: string) returns (ok: bool, vchRet: Bytes)
    ensures ok <==> DecodeCheck(h, s).Some?
    ensures vchRet == if ok then DecodeCheck(h, s).value else []
  {
    ok, vchRet := DecodeBase58(s);
    if !ok || |vchRet| < 4 { return false, []; }
    var n := |vchRet| - 4;
    if h(vchRet[..n]) != vchRet[n..] { return false, []; }
    vchRet := vchRet[..n];
  }

  /** What a C function sees of a string: everything before the first zero character. */
  function CText(s: string): (t: string)
    ensures t <= s && '\0' !in t && (|t| < |s| ==> s[|t|] == '\0')
  {
    if s == [] || s[0] == '\0' then [] else [s[0]] + CText(s[1..])
  }

  /** Decode a string object; whatever follows a zero character is ignored. */
  method DecodeBase58Str(str: string) returns (ok: bool, vch: Bytes)
    ensures ok <==> Decode(CText(str)).Some?
    ensures ok ==> vch == Decode(CText(str)).value
  {
    hide Decode;
    hide CText;
    var n := 0;
    while n < |str| && str[n] != '\0'
      invariant n <= |str| && forall i :: 0 <= i < n ==> str[i] != '\0'
    {
      n := n + 1;
    }
    CTextIs(str, n);
    ok, vch := DecodeBase58(str[..n]);
  }

  lemma CTextIs(s: string, n: nat)
    requires n <= |s| && (forall i :: 0 <= i < n ==> s[i] != '\0') && (n < |s| ==> s[n] == '\0')
    ensures CText(s) == s[..n]
  {
    hide CText;
    var t := CText(s);
    assert t == s[..|t|];
    assert n < |s| ==> s[n] !in t;
    assert |t| < |s| ==> s[|t|] == '\0';
  }
}
