/** What base58 text is, without reference to how it is made. */
module Base58Laws {
  import opened Options
  import opened Numbers
  import opened Digits
  import opened Base58
  import opened Base58Codec

  /** A digit or a letter that cannot be mistaken for another. */
  predicate Readable(c: char) {
    || '1' <= c <= '9'
    || ('A' <= c <= 'Z' && c != 'I' && c != 'O')
    || ('a' <= c <= 'z' && c != 'l')
  }

  /** Which digit a readable character is. */
  function Place(c: char): (d: nat)
    requires Readable(c)
    ensures d < 58 && Code(d) == c as int
  {
    if c <= '9' then c as int - '1' as int
    else if c <= 'H' then c as int - 'A' as int + 9
    else if c <= 'N' then c as int - 'J' as int + 17
    else if c <= 'Z' then c as int - 'P' as int + 22
    else if c <= 'k' then c as int - 'a' as int + 33
    else c as int - 'm' as int + 44
  }

  lemma CodeReadable(d: nat, c: char)
    requires d < 58 && Code(d) == c as int
    ensures Readable(c)
  {
  }

  /** The alphabet is the digits and letters other than 0, I, O and l. */
  lemma AlphabetExact(c: char)
    ensures c in ALPHABET <==> Readable(c)
    ensures Value(c) >= 0 <==> Readable(c)
  {
    hide Code;
    AlphabetSize();
    if c in ALPHABET {
      var d: nat :| d < |ALPHABET| && ALPHABET[d] == c;
      AlphabetAt(d);
      CodeReadable(d, c);
    }
    if Readable(c) {
      AlphabetAt(Place(c));
    }
  }

  /** Space, and the control characters from tab to carriage return. */
  lemma SpaceExact(c: char)
    ensures IsSpace(c) <==> c as int == 32 || 9 <= c as int <= 13
  {
    assert c as int == 11 <==> c == 11 as char;
    assert c as int == 12 <==> c == 12 as char;
  }

  /** Characters a to b are readable, and there is only white space around them. */
  ghost predicate ReadableRun(s: string, a: nat, b: nat) {
    && a <= b <= |s|
    && (forall i :: a <= i < b ==> Readable(s[i]))
    && forall i :: 0 <= i < a || b <= i < |s| ==> IsSpace(s[i])
  }

  lemma ReadableNoSpace(c: char)
    requires Readable(c)
    ensures !IsSpace(c)
  {
    SpaceExact(c);
  }

  lemma RunDecodes(s: string, a: nat, b: nat)
    requires ReadableRun(s, a, b)
    ensures Decode(s).Some? && Strip(s) == s[a..b]
  {
    hide IsSpace;
    hide Value;
    hide Strip;
    forall i | a <= i < b
      ensures !IsSpace(s[i])
    {
      ReadableNoSpace(s[i]);
    }
    StripIs(s, a, b);
    forall i | 0 <= i < b - a
      ensures Value(s[a..b][i]) >= 0
    {
      AlphabetExact(s[a + i]);
    }
  }

  lemma DecodesRun(s: string)
    requires Decode(s).Some?
    ensures exists a: nat, b: nat :: ReadableRun(s, a, b)
  {
    hide Value;
    hide IsSpace;
    var t := Strip(s);
    var a, b := First(s), Last(s);
    if a <= b {
      forall i | a <= i < b
        ensures Readable(s[i])
      {
        assert t[i - a] == s[i];
        AlphabetExact(s[i]);
      }
      assert ReadableRun(s, a, b);
    } else {
      assert ReadableRun(s, 0, 0);
    }
  }

  /** What can be decoded: one run of readable characters, with nothing but white space before and after it. */
  lemma DecodesExactly(s: string)
    ensures Decode(s).Some? <==> exists a: nat, b: nat :: ReadableRun(s, a, b)
  {
    if Decode(s).Some? { DecodesRun(s); }
    if a: nat, b: nat :| ReadableRun(s, a, b) { RunDecodes(s, a, b); }
  }

  /** The text is the number of the bytes in base 58, with a 1 for each zero byte in front. */
  lemma EncodeNumber(v: Bytes)
    requires InBase(v, 256)
    ensures AllDigits(Encode(v)) && Num(Values(Encode(v)), 58) == Num(v, 256)
    ensures LeadingZeros(Values(Encode(v))) == LeadingZeros(v)
  {
    hide Num;
    hide DigitsOf;
    NumBound(v, 256);
    var n, d := LeadingZeros(v), DigitsOf(Num(v, 256), 58);
    TextOfZeros(n, d);
    ValuesOfText(Zeros(n) + d);
    ZerosThenDigits(n, Num(v, 256), 58);
  }

  /** A number in any base is the first digit at its place and the number of the others. */
  lemma MostSignificantFirst(s: seq<int>, base: nat)
    requires s != []
    ensures Num(s, base) == s[0] * Pow(base, |s| - 1) + Num(s[1..], base)
  {
    assert s == [s[0]] + s[1..];
    NumFront(s[0], s[1..], base);
  }

  // ---------- examples ----------

  lemma OneByte()
    ensures Encode([0x61]) == "2g"
  {
    AlphabetAt(1);
    AlphabetAt(39);
    assert [0x61][..0] == [];
    assert Num([0x61], 256) == 97;
    assert DigitsOf(97, 58) == DigitsOf(1, 58) + [39];
    assert DigitsOf(1, 58) == [1];
    assert Text([1, 39]) == [ALPHABET[1], ALPHABET[39]];
  }

  lemma NextDigitOf(q: nat, r: nat)
    requires r < 58 && (q > 0 || r > 0)
    ensures DigitsOf(58 * q + r, 58) == DigitsOf(q, 58) + [r]
  {
    DivModUnique(58 * q + r, 58, q, r);
  }

  lemma ThreeBytesNumber()
    ensures Num([0x62, 0x62, 0x62], 256) == 6_447_714
    ensures DigitsOf(6_447_714, 58) == [33, 2, 39, 28]
  {
    var v: Bytes := [0x62, 0x62, 0x62];
    assert v[..2] == [0x62, 0x62] && v[..2][..1] == [0x62] && v[..2][..1][..0] == [];
    assert Num(v[..2][..1], 256) == 0x62 && Num(v[..2], 256) == 0x6262;
    assert DigitsOf(0, 58) == [];
    hide DigitsOf;
    NextDigitOf(0, 33);
    NextDigitOf(33, 2);
    NextDigitOf(1916, 39);
    NextDigitOf(111_167, 28);
  }

  lemma ThreeBytes()
    ensures Encode([0x62, 0x62, 0x62]) == "a3gV"
  {
    hide Num;
    hide DigitsOf;
    ThreeBytesNumber();
    AlphabetAt(33);
    AlphabetAt(2);
    AlphabetAt(39);
    AlphabetAt(28);
    assert Text([33, 2, 39, 28]) == [ALPHABET[33], ALPHABET[2], ALPHABET[39], ALPHABET[28]];
  }

  /** With a checksum: exactly the text of bytes that end in the checksum of the others is accepted. */
  lemma CheckExact(h: Bytes -> Bytes, s: string, v: Bytes)
    requires Checksum(h)
    ensures DecodeCheck(h, s) == Some(v) <==> Decode(s) == Some(v + h(v))
  {
    hide Decode;
    if Decode(s).Some? {
      var w := Decode(s).value;
      if w == v + h(v) {
        assert w[..|w| - 4] == v && w[|w| - 4..] == h(v);
      }
      if |w| >= 4 {
        assert w == w[..|w| - 4] + w[|w| - 4..];
      }
    }
  }
}
