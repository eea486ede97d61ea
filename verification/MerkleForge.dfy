/** What the decoder of partial Merkle trees refuses: surplus, missing and damaged parts. */
module MerkleForge {
  import opened Numbers
  import opened MerkleSpec

  /** The decoder consumes from the front. */
  ghost predicate IsSuffix<T>(t: seq<T>, s: seq<T>) {
    |t| <= |s| && t == s[|s| - |t|..]
  }

  lemma SuffixTwice<T>(s: seq<T>, t: seq<T>, u: seq<T>)
    requires IsSuffix(t, s) && IsSuffix(u, t)
    ensures IsSuffix(u, s)
  {
  }

  lemma SuffixBase<T>(s: seq<T>)
    ensures IsSuffix(s, s) && (s != [] ==> IsSuffix(s[1..], s))
  {
  }

  lemma {:induction false} ParseSuffix(hs: Hasher, n: nat, bits: seq<bool>, hashes: seq<Hash>, h: nat, lo: nat)
    ensures var p := Parse(hs, n, bits, hashes, h, lo); IsSuffix(p.bits, bits) && IsSuffix(p.hashes, hashes)
    decreases h
  {
    hide IsSuffix;
    hide Parse;
    hide Pow;
    if bits != [] && h > 0 && bits[0] {
      var l, mid := Parse(hs, n, bits[1..], hashes, h - 1, lo), lo + Pow(2, h - 1);
      ParseInner(hs, n, bits, hashes, h, lo);
      SuffixBase(bits);
      ParseSuffix(hs, n, bits[1..], hashes, h - 1, lo);
      SuffixTwice(bits, bits[1..], l.bits);
      if mid < n {
        var r := Parse(hs, n, l.bits, l.hashes, h - 1, mid);
        ParseSuffix(hs, n, l.bits, l.hashes, h - 1, mid);
        SuffixTwice(bits, l.bits, r.bits);
        SuffixTwice(hashes, l.hashes, r.hashes);
      }
    } else {
      LeafSuffix(hs, n, bits, hashes, h, lo);
    }
  }

  lemma LeafSuffix(hs: Hasher, n: nat, bits: seq<bool>, hashes: seq<Hash>, h: nat, lo: nat)
    requires bits == [] || h == 0 || !bits[0]
    ensures var p := Parse(hs, n, bits, hashes, h, lo); IsSuffix(p.bits, bits) && IsSuffix(p.hashes, hashes)
  {
    hide IsSuffix;
    SuffixBase(bits);
    SuffixBase(hashes);
  }

  /** The hashes consumed by the decoder. */
  ghost function Used(hs: Hasher, n: nat, bits: seq<bool>, hashes: seq<Hash>, h: nat, lo: nat): seq<Hash> {
    hashes[..|hashes| - |Parse(hs, n, bits, hashes, h, lo).hashes|]
  }

  lemma UsedSplit(hs: Hasher, n: nat, bits: seq<bool>, hashes: seq<Hash>, h: nat, lo: nat)
    requires bits != [] && h > 0 && bits[0]
    ensures var l, mid := Parse(hs, n, bits[1..], hashes, h - 1, lo), lo + Pow(2, h - 1);
            Used(hs, n, bits, hashes, h, lo)
            == Used(hs, n, bits[1..], hashes, h - 1, lo)
               + if mid < n then Used(hs, n, l.bits, l.hashes, h - 1, mid) else []
  {
    hide Parse;
    hide Pow;
    var l, mid := Parse(hs, n, bits[1..], hashes, h - 1, lo), lo + Pow(2, h - 1);
    ParseInner(hs, n, bits, hashes, h, lo);
    ParseSuffix(hs, n, bits[1..], hashes, h - 1, lo);
    if mid < n {
      var r := Parse(hs, n, l.bits, l.hashes, h - 1, mid);
      var a, b := |hashes| - |l.hashes|, |l.hashes| - |r.hashes|;
      assert l.hashes[..b] == hashes[a..a + b] && hashes[..a + b] == hashes[..a] + hashes[a..a + b];
    }
  }

  /** With the same bits, a subtree hash can come from one list of hashes only. */
  lemma {:induction false} ParseUnique(hs: Hasher, n: nat, bits: seq<bool>, x: seq<Hash>, y: seq<Hash>, h: nat, lo: nat)
    requires Injective(hs) && !Parse(hs, n, bits, x, h, lo).bad && !Parse(hs, n, bits, y, h, lo).bad
    requires Parse(hs, n, bits, x, h, lo).hash == Parse(hs, n, bits, y, h, lo).hash
    ensures Used(hs, n, bits, x, h, lo) == Used(hs, n, bits, y, h, lo)
    ensures Parse(hs, n, bits, x, h, lo).bits == Parse(hs, n, bits, y, h, lo).bits
    decreases h
  {
    hide Parse;
    hide Used;
    hide Pow;
    hide Injective;
    if bits != [] && h > 0 && bits[0] {
      var lx, ly := Parse(hs, n, bits[1..], x, h - 1, lo), Parse(hs, n, bits[1..], y, h - 1, lo);
      var mid := lo + Pow(2, h - 1);
      UsedSplit(hs, n, bits, x, h, lo);
      UsedSplit(hs, n, bits, y, h, lo);
      ParseInner(hs, n, bits, x, h, lo);
      ParseInner(hs, n, bits, y, h, lo);
      if mid < n {
        Apart(hs, lx.hash, Parse(hs, n, lx.bits, lx.hashes, h - 1, mid).hash,
              ly.hash, Parse(hs, n, ly.bits, ly.hashes, h - 1, mid).hash);
      } else {
        Apart(hs, lx.hash, lx.hash, ly.hash, ly.hash);
      }
      ParseUnique(hs, n, bits[1..], x, y, h - 1, lo);
      if mid < n {
        ParseUnique(hs, n, lx.bits, lx.hashes, ly.hashes, h - 1, mid);
      }
    } else {
      ParseUniqueLeaf(hs, n, bits, x, y, h, lo);
    }
  }

  lemma Apart(hs: Hasher, a: Hash, b: Hash, c: Hash, d: Hash)
    requires Injective(hs)
    ensures hs.combine(a, b) == hs.combine(c, d) ==> a == c && b == d
  {
  }

  lemma ParseUniqueLeaf(hs: Hasher, n: nat, bits: seq<bool>, x: seq<Hash>, y: seq<Hash>, h: nat, lo: nat)
    requires !Parse(hs, n, bits, x, h, lo).bad && !Parse(hs, n, bits, y, h, lo).bad
    requires Parse(hs, n, bits, x, h, lo).hash == Parse(hs, n, bits, y, h, lo).hash
    requires bits == [] || h == 0 || !bits[0]
    ensures Used(hs, n, bits, x, h, lo) == Used(hs, n, bits, y, h, lo)
    ensures Parse(hs, n, bits, x, h, lo).bits == Parse(hs, n, bits, y, h, lo).bits
  {
    assert x[..1] == [x[0]] && y[..1] == [y[0]];
  }

  /** How an inner node is put together from its children. */
  lemma ParseInner(hs: Hasher, n: nat, bits: seq<bool>, hashes: seq<Hash>, h: nat, lo: nat)
    requires bits != [] && h > 0 && bits[0]
    ensures var l, mid := Parse(hs, n, bits[1..], hashes, h - 1, lo), lo + Pow(2, h - 1);
            Parse(hs, n, bits, hashes, h, lo)
            == if mid < n then Joined(hs, l, Parse(hs, n, l.bits, l.hashes, h - 1, mid))
               else l.(hash := hs.combine(l.hash, l.hash))
  {
  }

  /** Damage shows: with the same bits no other hashes give the same root. */
  lemma DamageShows(hs: Hasher, n: nat, bits: seq<bool>, x: seq<Hash>, y: seq<Hash>)
    requires Injective(hs) && Extract(hs, n, bits, x, false).root != hs.zero
    requires Extract(hs, n, bits, x, false).root == Extract(hs, n, bits, y, false).root
    ensures x == y
  {
    var h := Height(n);
    ParseUnique(hs, n, bits, x, y, h, 0);
    hide Parse;
    assert Used(hs, n, bits, x, h, 0) == x && Used(hs, n, bits, y, h, 0) == y;
  }

  /** A hash is used for at least one leaf and at least one bit each. */
  lemma {:induction false} UsedBound(hs: Hasher, n: nat, bits: seq<bool>, hashes: seq<Hash>, h: nat, lo: nat)
    requires lo < n
    ensures |Used(hs, n, bits, hashes, h, lo)| <= End(n, h, lo) - lo
    ensures |Used(hs, n, bits, hashes, h, lo)| <= |bits| - |Parse(hs, n, bits, hashes, h, lo).bits|
    decreases h
  {
    hide End;
    hide Parse;
    hide Used;
    hide Pow;
    EndPast(n, h, lo);
    if bits != [] && h > 0 && bits[0] {
      var l, mid := Parse(hs, n, bits[1..], hashes, h - 1, lo), lo + Pow(2, h - 1);
      UsedSplit(hs, n, bits, hashes, h, lo);
      ParseInner(hs, n, bits, hashes, h, lo);
      EndSplit(n, h, lo);
      UsedBound(hs, n, bits[1..], hashes, h - 1, lo);
      if mid < n {
        UsedBound(hs, n, l.bits, l.hashes, h - 1, mid);
      }
    } else {
      LeafUsed(hs, n, bits, hashes, h, lo);
    }
  }

  lemma LeafUsed(hs: Hasher, n: nat, bits: seq<bool>, hashes: seq<Hash>, h: nat, lo: nat)
    requires bits == [] || h == 0 || !bits[0]
    ensures |Used(hs, n, bits, hashes, h, lo)| <= 1
    ensures |Used(hs, n, bits, hashes, h, lo)| <= |bits| - |Parse(hs, n, bits, hashes, h, lo).bits|
  {
  }

  /** The tree is refused before anything is decoded. */
  predicate RefusedAtOnce(n: nat, bits: seq<bool>, hashes: seq<Hash>) {
    n == 0 || |hashes| > n || |bits| < |hashes|
  }

  /**
   The three tests on the sizes refuse with nothing reported, and they refuse nothing that the traversal
   would use up: without them the same trees would be accepted.
   */
  lemma SizeTests(hs: Hasher, n: nat, bits: seq<bool>, hashes: seq<Hash>, wasBad: bool)
    ensures RefusedAtOnce(n, bits, hashes) ==> Extract(hs, n, bits, hashes, wasBad) == Extraction(hs.zero, [])
    ensures n > 0 && Parse(hs, n, bits, hashes, Height(n), 0).hashes == [] ==> !RefusedAtOnce(n, bits, hashes)
  {
    if n > 0 {
      UsedBound(hs, n, bits, hashes, Height(n), 0);
    }
  }

  /** A tree that has once been found bad, or was never filled, is refused. */
  lemma BadStaysBad(hs: Hasher, n: nat, bits: seq<bool>, hashes: seq<Hash>)
    ensures Extract(hs, n, bits, hashes, true).root == hs.zero
  {
  }

  /** What is accepted was used up: every hash, and every bit but the padding of the last byte. */
  lemma AcceptedWhole(hs: Hasher, n: nat, bits: seq<bool>, hashes: seq<Hash>, wasBad: bool, more: seq<bool>)
    requires Extract(hs, n, bits, hashes, wasBad).root != hs.zero
    ensures |more| >= 8 ==> Extract(hs, n, bits + more, hashes, wasBad).root == hs.zero
  {
    ParseIgnores(hs, n, bits, hashes, more, Height(n), 0);
    hide Parse;
  }

  /** Bits after those that are used make no difference. */
  lemma {:induction false} ParseIgnores(hs: Hasher, n: nat, bits: seq<bool>, hashes: seq<Hash>, more: seq<bool>,
                                        h: nat, lo: nat)
    requires !Parse(hs, n, bits, hashes, h, lo).bad
    ensures var p := Parse(hs, n, bits, hashes, h, lo);
            Parse(hs, n, bits + more, hashes, h, lo) == p.(bits := p.bits + more)
    decreases h
  {
    assert (bits + more)[1..] == bits[1..] + more;
    if h > 0 && bits[0] {
      var l, mid := Parse(hs, n, bits[1..], hashes, h - 1, lo), lo + Pow(2, h - 1);
      ParseIgnores(hs, n, bits[1..], hashes, more, h - 1, lo);
      if mid < n {
        ParseIgnores(hs, n, l.bits, l.hashes, more, h - 1, mid);
      }
    }
  }
}
