/** Base58 text for byte strings, with and without a checksum. */
module Base58 {
  import opened Options
  import opened Numbers
  import opened Digits

  /** All digits and letters except 0, I, O and l. */
  const ALPHABET := "123456789" + ("ABCDEFGH" + ("JKLMN" + ("PQRSTUVWXYZ" + ("abcdefghijk" + "mnopqrstuvwxyz"))))

  type Bytes = seq<int>

  // ---------- the buffers are large enough ----------

  lemma Pow58()
    ensures Pow(58, 8) >= Pow(2, 46) && Pow(58, 10) >= Pow(2, 58)
    ensures Pow(58, 14) <= Pow(2, 83) && Pow(58, 29) <= Pow(2, 170)
  {
    assert Pow(58, 1) == 58 && Pow(58, 2) == 3364;
    PowAdd(58, 2, 2);
    PowAdd(58, 4, 4);
    PowAdd(58, 8, 2);
    PowAdd(58, 10, 4);
    PowAdd(58, 14, 14);
    PowAdd(58, 28, 1);
    Pow2();
  }

  lemma Pow2Small()
    ensures Pow(2, 3) == 8 && Pow(2, 6) == 64 && Pow(2, 10) == 1024
  {
    assert Pow(2, 1) == 2 && Pow(2, 2) == 4;
    hide Pow;
    PowAdd(2, 1, 2);
    PowAdd(2, 3, 3);
    PowAdd(2, 6, 1);
    PowAdd(2, 7, 3);
  }

  lemma Pow2()
    ensures Pow(2, 46) == 0x4000_0000_0000 && Pow(2, 58) == 0x400_0000_0000_0000
    ensures Pow(2, 83) == 0x8_0000_0000_0000_0000_0000
    ensures Pow(2, 170) == 0x400_0000_0000_0000_0000_0000_0000_0000_0000_0000_0000
  {
    hide Pow;
    Pow2Small();
    PowAdd(2, 10, 10);
    PowAdd(2, 20, 20);
    PowAdd(2, 40, 6);
    PowAdd(2, 46, 6);
    PowAdd(2, 52, 6);
    PowAdd(2, 40, 40);
    PowAdd(2, 80, 3);
    PowAdd(2, 80, 80);
    PowAdd(2, 160, 10);
  }

  /** 256^100 <= 58^138 */
  lemma EncodeRatio()
    ensures Pow(256, 100) <= Pow(58, 138)
  {
    hide Pow;
    Pow58();
    Pow256(100);
    PowMul(58, 10, 13);
    PowMul(2, 58, 13);
    PowBaseMonotone(Pow(2, 58), Pow(58, 10), 13);
    PowAdd(58, 130, 8);
    PowAdd(2, 754, 46);
    Products(Pow(2, 754), Pow(58, 130), Pow(2, 46), Pow(58, 8));
  }

  /** 58^1000 <= 256^733 */
  lemma DecodeRatio()
    ensures Pow(58, 1000) <= Pow(256, 733)
  {
    hide Pow;
    Pow58();
    Pow256(733);
    PowMul(58, 29, 34);
    PowMul(2, 170, 34);
    PowBaseMonotone(Pow(58, 29), Pow(2, 170), 34);
    PowAdd(58, 986, 14);
    PowAdd(2, 5780, 83);
    Products(Pow(58, 986), Pow(2, 5780), Pow(58, 14), Pow(2, 83));
    PowMonotone(2, 5863, 5864);
  }

  lemma Products(a: nat, b: nat, c: nat, d: nat)
    requires a <= b && c <= d
    ensures a * c <= b * d
  {
    MulMonotone(c, a, b);
    MulMonotone(b, c, d);
  }

  lemma Pow256(n: nat)
    ensures Pow(256, n) == Pow(2, 8 * n)
  {
    Pow2Small();
    PowMul(2, 8, n);
    PowAdd(2, 6, 1);
    PowAdd(2, 7, 1);
    assert Pow(2, 8) == 256;
  }

  /** A power inequality carries over to a rounded ratio of the exponents. */
  lemma RatioFits(a: nat, b: nat, num: nat, den: nat, n: nat)
    requires a > 0 && b > 0 && den > 0 && Pow(a, den) <= Pow(b, num)
    ensures n * num / den >= 0 && Pow(a, n) <= Pow(b, n * num / den + 1)
  {
    var size := n * num / den + 1;
    RoundedUp(n * num, den);
    hide Pow;
    PowMul(a, den, n);
    PowMul(b, num, n);
    PowBaseMonotone(Pow(a, den), Pow(b, num), n);
    PowMonotone(b, num * n, size * den);
    PowMul(a, n, den);
    PowMul(b, size, den);
    assert den * n == n * den && num * n == n * num;
    if Pow(a, n) > Pow(b, size) {
      PowBaseStrict(Pow(b, size), Pow(a, n), den);
    }
  }

  lemma RoundedUp(x: nat, d: nat)
    requires d > 0
    ensures x / d >= 0 && x <= (x / d + 1) * d
  {
    if x / d < 0 { MulMonotone(d, x / d, -1); }
  }

  // ---------- the alphabet ----------

  /** The character code of a digit. */
  function Code(d: nat): int {
    if d < 9 then '1' as int + d
    else if d < 17 then 'A' as int + d - 9
    else if d < 22 then 'J' as int + d - 17
    else if d < 33 then 'P' as int + d - 22
    else if d < 44 then 'a' as int + d - 33
    else 'm' as int + d - 44
  }

  lemma Upper(d: nat)
    ensures d < 8 ==> "ABCDEFGH"[d] as int == 'A' as int + d
    ensures d < 5 ==> "JKLMN"[d] as int == 'J' as int + d
    ensures d < 11 ==> "PQRSTUVWXYZ"[d] as int == 'P' as int + d
  {
  }

  lemma Lower(d: nat)
    ensures d < 9 ==> "123456789"[d] as int == '1' as int + d
    ensures d < 11 ==> "abcdefghijk"[d] as int == 'a' as int + d
    ensures d < 14 ==> "mnopqrstuvwxyz"[d] as int == 'm' as int + d
  {
  }

  lemma AlphabetAt(d: nat)
    requires d < 58
    ensures |ALPHABET| == 58 && ALPHABET[d] as int == Code(d)
  {
    if d < 9 { Lower(d); }
    else if d < 17 { Upper(d - 9); }
    else if d < 22 { Upper(d - 17); }
    else if d < 33 { Upper(d - 22); }
    else if d < 44 { Lower(d - 33); }
    else { Lower(d - 44); }
  }

  /** The characters stand in the order of their codes. */
  lemma AlphabetOrder(i: nat, j: nat)
    requires i < j < 58
    ensures |ALPHABET| == 58 && ALPHABET[i] < ALPHABET[j]
  {
    AlphabetAt(i);
    AlphabetAt(j);
  }

  lemma AlphabetSize()
    ensures |ALPHABET| == 58 && ALPHABET[0] == '1'
  {
    AlphabetAt(0);
  }

  predicate IsSpace(c: char) {
    c == ' ' || c == '\t' || c == '\n' || c == 11 as char || c == 12 as char || c == '\r'
  }

  lemma NoSpaceInAlphabet(i: nat)
    requires i < |ALPHABET|
    ensures !IsSpace(ALPHABET[i])
  {
    AlphabetSize();
    if i > 0 { AlphabetOrder(0, i); }
  }

  /** The digit a character stands for, or -1. */
  function Value(c: char): (r: int)
    ensures -1 <= r < |ALPHABET|
    ensures r >= 0 ==> ALPHABET[r] == c
    ensures r == -1 ==> c !in ALPHABET
  {
    IndexFrom(c, 0)
  }

  function IndexFrom(c: char, i: nat): (r: int)
    requires i <= |ALPHABET|
    ensures r == -1 || i <= r < |ALPHABET|
    ensures r >= 0 ==> ALPHABET[r] == c
    ensures r == -1 ==> c !in ALPHABET[i..]
    decreases |ALPHABET| - i
  {
    if i == |ALPHABET| then -1 else if ALPHABET[i] == c then i else IndexFrom(c, i + 1)
  }

  lemma ValueOfDigit(d: nat)
    requires d < 58
    ensures |ALPHABET| == 58 && Value(ALPHABET[d]) == d
  {
    AlphabetSize();
    var r := Value(ALPHABET[d]);
    if r < d { AlphabetOrder(r, d); } else if r > d { AlphabetOrder(d, r); }
  }

  // ---------- the text of a byte string ----------

  function Text(d: seq<int>): string
    requires InBase(d, 58)
  {
    AlphabetSize();
    seq(|d|, i requires 0 <= i < |d| => ALPHABET[d[i]])
  }

  function LeadingZeros(v: Bytes): (n: nat)
    ensures n <= |v| && (forall i :: 0 <= i < n ==> v[i] == 0) && (n < |v| ==> v[n] != 0)
  {
    if v == [] || v[0] != 0 then 0 else 1 + LeadingZeros(v[1..])
  }

  function Ones(n: nat): string {
    seq(n, _ => '1')
  }

  function Zeros(n: nat): Bytes {
    seq(n, _ => 0)
  }

  ghost function Encode(v: Bytes): string
    requires InBase(v, 256)
  {
    NumBound(v, 256);
    Ones(LeadingZeros(v)) + Text(DigitsOf(Num(v, 256), 58))
  }

  // ---------- reading text ----------

  function First(s: string): (n: nat)
    ensures n <= |s| && (forall i :: 0 <= i < n ==> IsSpace(s[i])) && (n < |s| ==> !IsSpace(s[n]))
  {
    if s == [] || !IsSpace(s[0]) then 0 else 1 + First(s[1..])
  }

  function Last(s: string): (n: nat)
    ensures n <= |s| && (forall i :: n <= i < |s| ==> IsSpace(s[i])) && (n > 0 ==> !IsSpace(s[n - 1]))
  {
    if s == [] || !IsSpace(s[|s| - 1]) then |s| else Last(s[..|s| - 1])
  }

  /** Without the white space around it. */
  function Strip(s: string): string {
    if First(s) <= Last(s) then s[First(s)..Last(s)] else ""
  }

  predicate AllDigits(t: string) {
    forall i :: 0 <= i < |t| ==> Value(t[i]) >= 0
  }

  function Values(t: string): (d: seq<int>)
    requires AllDigits(t)
    ensures InBase(d, 58)
  {
    AlphabetSize();
    seq(|t|, i requires 0 <= i < |t| => Value(t[i]))
  }

  ghost function Decode(s: string): Option<Bytes> {
    var t := Strip(s);
    if !AllDigits(t) then None
    else
      NumBound(Values(t), 58);
      Some(Zeros(LeadingZeros(Values(t))) + DigitsOf(Num(Values(t), 58), 256))
  }

  // ---------- the round trips ----------

  /** Leading zeros and the number determine the digits. */
  lemma Rebuild(v: seq<int>, base: nat)
    requires InBase(v, base) && base > 1
    ensures Num(v, base) >= 0 && Zeros(LeadingZeros(v)) + DigitsOf(Num(v, base), base) == v
  {
    hide Num;
    hide DigitsOf;
    hide LeadingZeros;
    hide Zeros;
    hide Pow;
    var n := LeadingZeros(v);
    NumBound(v, base);
    NumSkipZeros(v, base, n);
    DigitsOfNum(v[n..], base);
    ZerosPrefix(v, n);
  }

  lemma ZerosPrefix(v: seq<int>, n: nat)
    requires n <= |v| && forall i :: 0 <= i < n ==> v[i] == 0
    ensures Zeros(n) + v[n..] == v
  {
  }

  lemma ZerosThenDigits(n: nat, v: nat, base: nat)
    requires base > 1
    ensures var w := Zeros(n) + DigitsOf(v, base);
            InBase(w, base) && LeadingZeros(w) == n && Num(w, base) == v
  {
    var d := DigitsOf(v, base);
    var w := Zeros(n) + d;
    DigitsNoZero(v, base);
    NumSkipZeros(w, base, n);
    assert w[n..] == d;
    NumOfDigits(v, base);
    CountZeros(w, n);
  }

  lemma CountZeros(w: seq<int>, n: nat)
    requires n <= |w| && (forall i :: 0 <= i < n ==> w[i] == 0) && (n < |w| ==> w[n] != 0)
    ensures LeadingZeros(w) == n
  {
    var m := LeadingZeros(w);
    assert m < |w| ==> w[m] != 0;
  }

  lemma ValuesOfText(d: seq<int>)
    requires InBase(d, 58)
    ensures AllDigits(Text(d)) && Values(Text(d)) == d
  {
    forall i | 0 <= i < |d|
      ensures Value(Text(d)[i]) == d[i]
    {
      ValueOfDigit(d[i]);
    }
  }

  lemma TextOfValues(t: string)
    requires AllDigits(t)
    ensures Text(Values(t)) == t
  {
  }

  lemma TextOfZeros(n: nat, d: seq<int>)
    requires InBase(d, 58)
    ensures InBase(Zeros(n) + d, 58) && Text(Zeros(n) + d) == Ones(n) + Text(d)
  {
    AlphabetSize();
  }

  lemma NothingToStrip(t: string)
    requires AllDigits(t)
    ensures Strip(t) == t
  {
    forall i | 0 <= i < |t|
      ensures !IsSpace(t[i])
    {
      NoSpaceInAlphabet(Value(t[i]));
    }
  }

  /** Every byte string comes back from its text. */
  lemma DecodeEncode(v: Bytes)
    requires InBase(v, 256)
    ensures Decode(Encode(v)) == Some(v)
  {
    hide Num;
    hide DigitsOf;
    NumBound(v, 256);
    var n, d := LeadingZeros(v), DigitsOf(Num(v, 256), 58);
    TextOfZeros(n, d);
    ValuesOfText(Zeros(n) + d);
    NothingToStrip(Encode(v));
    ZerosThenDigits(n, Num(v, 256), 58);
    Rebuild(v, 256);
  }

  /** Text that can be decoded comes back from its bytes, without white space around it. */
  lemma EncodeDecode(s: string)
    requires Decode(s).Some?
    ensures InBase(Decode(s).value, 256) && Encode(Decode(s).value) == Strip(s)
  {
    hide Num;
    hide DigitsOf;
    var t := Strip(s);
    var d := Values(t);
    NumBound(d, 58);
    ZerosThenDigits(LeadingZeros(d), Num(d, 58), 256);
    Rebuild(d, 58);
    TextOfZeros(LeadingZeros(d), DigitsOf(Num(d, 58), 58));
    TextOfValues(t);
  }
}
