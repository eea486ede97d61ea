/**
 The partial Merkle tree object: the recursive traversals that push bits and hashes, and consume
 them, the height loop, and the packing of flag bits into bytes. Each is tied to MerkleSpec.
 */
module MerkleBlock {
  import opened Numbers
  import opened Bits
  import opened MerkleSpec

  const UINT32: nat := 0x1_0000_0000
  /** Up to this many transactions no 32-bit sum or shift of the traversal wraps. */
  const MAX_TRANSACTIONS: nat := 0x8000_0000

  /** Number of nodes at a height, in 32-bit arithmetic. */
  function CalcTreeWidth(nTransactions: nat, height: nat): int {
    PowPositive(2, height);
    (nTransactions + Pow(2, height) - 1) % UINT32 / Pow(2, height)
  }

  lemma Pow2Of31()
    ensures Pow(2, 31) == MAX_TRANSACTIONS
  {
    PowAdd(2, 16, 15);
    PowAdd(2, 8, 8);
    PowAdd(2, 8, 7);
  }

  /** Position pos exists at a height exactly when its first leaf does: no wrap-around up to height 31. */
  lemma TreeWidthExact(n: nat, height: nat, pos: nat)
    requires n <= MAX_TRANSACTIONS && height <= 31
    ensures pos < CalcTreeWidth(n, height) <==> pos * Pow(2, height) < n
  {
    Pow2Of31();
    PowMonotone(2, height, 31);
    PowPositive(2, height);
    WidthQuotient(n, Pow(2, height), pos);
  }

  lemma WidthQuotient(n: nat, d: nat, pos: nat)
    requires n <= MAX_TRANSACTIONS && 0 < d <= MAX_TRANSACTIONS
    ensures pos < (n + d - 1) % UINT32 / d <==> pos * d < n
  {
    assert (n + d - 1) % UINT32 == n + d - 1;
    QuotientAbove(n + d - 1, d, pos);
  }

  lemma QuotientAbove(x: nat, d: nat, q: nat)
    requires d > 0
    ensures q < x / d <==> q * d + d <= x
  {
    assert x == x / d * d + x % d;
    if q < x / d {
      MulMonotone(d, q + 1, x / d);
    } else {
      MulMonotone(d, x / d, q);
    }
  }

  /** The leaves below the node at (height, pos) start at lo. */
  ghost predicate FirstLeaf(height: nat, pos: nat, lo: nat) {
    lo == pos * Pow(2, height)
  }

  lemma LeafFirst(pos: nat, lo: nat)
    requires FirstLeaf(0, pos, lo)
    ensures lo == pos
  {
  }

  lemma ChildOffsets(height: nat, pos: nat, lo: nat)
    requires height > 0 && FirstLeaf(height, pos, lo)
    ensures FirstLeaf(height - 1, pos * 2, lo) && FirstLeaf(height - 1, pos * 2 + 1, lo + Pow(2, height - 1))
  {
  }

  lemma HeightExact(n: nat)
    ensures Height(n) <= 31 <==> n <= MAX_TRANSACTIONS
  {
    Pow2Of31();
    if Height(n) <= 31 { PowMonotone(2, Height(n), 31); }
  }

  /** At height 31 the 32-bit width is never above one. */
  lemma WidthAt31(n: nat)
    requires n < UINT32
    ensures CalcTreeWidth(n, 31) <= 1
  {
    Pow2Of31();
    var x := (n + MAX_TRANSACTIONS - 1) % UINT32;
    assert x < UINT32;
    var q := if x < MAX_TRANSACTIONS then 0 else 1;
    DivModUnique(x, MAX_TRANSACTIONS, q, x - q * MAX_TRANSACTIONS);
  }

  function Ids(ms: seq<Match>): seq<Hash> {
    seq(|ms|, i requires 0 <= i < |ms| => ms[i].0)
  }

  function Indices(ms: seq<Match>): seq<nat> {
    seq(|ms|, i requires 0 <= i < |ms| => ms[i].1)
  }

  lemma ProjectionsJoin(x: seq<Match>, y: seq<Match>)
    ensures Ids(x + y) == Ids(x) + Ids(y) && Indices(x + y) == Indices(x) + Indices(y)
  {
  }

  /** Decoding that starts at bit b and hash k. */
  ghost function ParseAt(hs: Hasher, n: nat, bits: seq<bool>, hashes: seq<Hash>, h: nat, lo: nat, b: nat,
                         k: nat): Parsed
    requires b <= |bits| && k <= |hashes|
  {
    Parse(hs, n, bits[b..], hashes[k..], h, lo)
  }

  ghost function ParseChildren(hs: Hasher, n: nat, bits: seq<bool>, hashes: seq<Hash>, h: nat, lo: nat, b: nat,
                               k: nat): Parsed
    requires b <= |bits| && k <= |hashes| && h > 0
  {
    var l := ParseAt(hs, n, bits, hashes, h - 1, lo, b, k);
    var mid := lo + Pow(2, h - 1);
    if mid < n then Joined(hs, l, Parse(hs, n, l.bits, l.hashes, h - 1, mid))
    else l.(hash := hs.combine(l.hash, l.hash))
  }

  /** The outputs of the decoder agree with p, the matches being appended to what was there. */
  ghost predicate ExtractsAs(p: Parsed, hash: Hash, bits: seq<bool>, hashes: seq<Hash>,
                             matchIn: seq<Hash>, vMatch: seq<Hash>, indexIn: seq<nat>, vnIndex: seq<nat>) {
    && hash == p.hash && bits == p.bits && hashes == p.hashes
    && vMatch == matchIn + Ids(p.matches) && vnIndex == indexIn + Indices(p.matches)
  }

  lemma JoinExtracts(hs: Hasher, l: Parsed, r: Parsed, left: Hash, right: Hash, m: seq<Hash>, i: seq<nat>,
                     matchIn: seq<Hash>, vMatch: seq<Hash>, indexIn: seq<nat>, vnIndex: seq<nat>)
    requires ExtractsAs(l, left, l.bits, l.hashes, matchIn, m, indexIn, i)
    requires ExtractsAs(r, right, r.bits, r.hashes, m, vMatch, i, vnIndex)
    ensures ExtractsAs(Joined(hs, l, r), hs.combine(left, right), r.bits, r.hashes, matchIn, vMatch, indexIn, vnIndex)
  {
    ProjectionsJoin(l.matches, r.matches);
  }

  /** What the encoder writes for the children of a node above a match. */
  ghost function ChildEncoding(hs: Hasher, txids: seq<Hash>, mask: seq<bool>, h: nat, lo: nat): Encoding
    requires lo < |txids| == |mask| && h > 0
  {
    var l := Build(hs, txids, mask, h - 1, lo);
    var mid := lo + Pow(2, h - 1);
    if mid < |txids| then
      var r := Build(hs, txids, mask, h - 1, mid);
      Encoding(l.bits + r.bits, l.hashes + r.hashes)
    else l
  }

  lemma BuildLeaf(hs: Hasher, txids: seq<Hash>, mask: seq<bool>, h: nat, lo: nat)
    requires lo < |txids| == |mask|
    ensures var any := AnyMatch(mask, lo, lo + Pow(2, h));
            h == 0 || !any ==> Build(hs, txids, mask, h, lo) == Encoding([any], [CalcHash(hs, txids, h, lo)])
  {
  }

  lemma BuildInner(hs: Hasher, txids: seq<Hash>, mask: seq<bool>, h: nat, lo: nat)
    requires lo < |txids| == |mask| && h > 0 && AnyMatch(mask, lo, lo + Pow(2, h))
    ensures var c := ChildEncoding(hs, txids, mask, h, lo);
            Build(hs, txids, mask, h, lo) == Encoding([true] + c.bits, c.hashes)
  {
  }

  lemma ConcatAssoc<T>(x: seq<T>, y: seq<T>, z: seq<T>)
    ensures x + y + z == x + (y + z)
  {
  }

  lemma ParseAtInner(hs: Hasher, n: nat, bits: seq<bool>, hashes: seq<Hash>, h: nat, lo: nat, b: nat, k: nat)
    requires b < |bits| && k <= |hashes| && h > 0 && bits[b]
    ensures ParseAt(hs, n, bits, hashes, h, lo, b, k) == ParseChildren(hs, n, bits, hashes, h, lo, b + 1, k)
  {
    assert bits[b..][1..] == bits[b + 1..];
  }

  /** Bits as stored in a byte string, least significant first. */
  function Unpacked(bytes: seq<byte>): seq<bool> {
    seq(8 * |bytes|, p requires 0 <= p < 8 * |bytes| => TestBit(bytes[p / 8], p % 8))
  }

  /** The flag bits go out packed eight to a byte, the last byte padded with zero bits. */
  method PackBits(vBits: seq<bool>) returns (vBytes: seq<byte>)
    ensures |vBytes| == (|vBits| + 7) / 8
    ensures vBits <= Unpacked(vBytes)
    ensures forall p :: |vBits| <= p < 8 * |vBytes| ==> !Unpacked(vBytes)[p]
  {
    vBytes := seq((|vBits| + 7) / 8, _ => 0);
    for p := 0 to |vBits|
      invariant |vBytes| == (|vBits| + 7) / 8
      invariant forall j :: 0 <= j < 8 * |vBytes| ==> TestBit(vBytes[j / 8], j % 8) == (j < p && vBits[j])
    {
      if vBits[p] {
        ghost var before := vBytes;
        vBytes := vBytes[p / 8 := SetBit(vBytes[p / 8], p % 8)];
        forall j | 0 <= j < 8 * |vBytes|
          ensures TestBit(vBytes[j / 8], j % 8) == (j < p + 1 && vBits[j])
        {
          if j / 8 == p / 8 {
            SetBitTests(before[p / 8], p % 8, j % 8);
          }
        }
      }
    }
  }

  method UnpackBits(vBytes: seq<byte>) returns (vBits: seq<bool>)
    ensures vBits == Unpacked(vBytes)
  {
    vBits := seq(8 * |vBytes|, _ => false);
    for p := 0 to |vBits|
      invariant |vBits| == 8 * |vBytes|
      invariant vBits[..p] == Unpacked(vBytes)[..p]
    {
      vBits := vBits[p := TestBit(vBytes[p / 8], p % 8)];
    }
  }

  class PartialMerkleTree {
    const hs: Hasher
    var nTransactions: nat
    var vBits: seq<bool>
    var vHash: seq<Hash>
    var fBad: bool

    /** Encode a block's ids and a mask over them. */
    constructor (hs: Hasher, vTxid: seq<Hash>, vMatch: seq<bool>)
      requires 0 < |vTxid| == |vMatch| && |vTxid| <= MAX_TRANSACTIONS
      ensures this.hs == hs && nTransactions == |vTxid| && !fBad
      ensures Encoding(vBits, vHash) == Build(hs, vTxid, vMatch, Height(|vTxid|), 0)
    {
      this.hs := hs;
      nTransactions := |vTxid|;
      fBad := false;
      vBits := [];
      vHash := [];
      new;
      var nHeight := TreeHeight();
      HeightExact(nTransactions);
      TraverseAndBuild(nHeight, 0, vTxid, vMatch, 0);
    }

    /** A tree read from the wire. */
    constructor FromWire(hs: Hasher, nTransactions: nat, vHash: seq<Hash>, vBytes: seq<byte>)
      ensures this.hs == hs && this.nTransactions == nTransactions && this.vHash == vHash && !fBad
      ensures vBits == Unpacked(vBytes)
    {
      this.hs := hs;
      this.nTransactions := nTransactions;
      this.vHash := vHash;
      fBad := false;
      var bits := UnpackBits(vBytes);
      vBits := bits;
    }

    /** The height found by 32-bit widths: the right one exactly for at most 2^31 transactions. */
    method TreeHeight() returns (nHeight: nat)
      requires nTransactions < UINT32
      ensures nHeight <= 31
      ensures nHeight == Height(nTransactions) <==> nTransactions <= MAX_TRANSACTIONS
    {
      nHeight := 0;
      HeightExact(nTransactions);
      WidthAt31(nTransactions);
      if nTransactions <= MAX_TRANSACTIONS { TreeWidthExact(nTransactions, 0, 1); }
      while CalcTreeWidth(nTransactions, nHeight) > 1
        invariant nHeight <= 31
        invariant nTransactions <= MAX_TRANSACTIONS ==>
                    && nHeight <= Height(nTransactions)
                    && (1 < CalcTreeWidth(nTransactions, nHeight) <==> Pow(2, nHeight) < nTransactions)
        decreases 31 - nHeight
      {
        nHeight := nHeight + 1;
        if nTransactions <= MAX_TRANSACTIONS { TreeWidthExact(nTransactions, nHeight, 1); }
      }
    }

    /** Whether the tree has a node at (height, pos), given its first leaf. */
    method HasNode(height: nat, pos: nat, ghost lo: nat) returns (b: bool)
      requires nTransactions <= MAX_TRANSACTIONS && height <= 31
      requires FirstLeaf(height, pos, lo)
      ensures b <==> lo < nTransactions
    {
      TreeWidthExact(nTransactions, height, pos);
      b := pos < CalcTreeWidth(nTransactions, height);
    }

    /** Whether the node at (height, pos) is above a matched leaf. */
    method ParentOfMatch(height: nat, pos: nat, vMatch: seq<bool>, ghost lo: nat) returns (f: bool)
      requires nTransactions == |vMatch|
      requires FirstLeaf(height, pos, lo)
      ensures f == AnyMatch(vMatch, lo, lo + Pow(2, height))
    {
      f := false;
      var p, end := pos * Pow(2, height), (pos + 1) * Pow(2, height);
      assert end == lo + Pow(2, height);
      while p < end && p < nTransactions
        invariant lo <= p <= end
        invariant f == AnyMatch(vMatch, lo, p)
        decreases end - p
      {
        f := f || vMatch[p];
        p := p + 1;
        assert f ==> AnyMatch(vMatch, lo, p);
      }
    }

    /** Hash of the node at (height, pos). */
    method NodeHash(height: nat, pos: nat, vTxid: seq<Hash>, ghost lo: nat) returns (hash: Hash)
      requires nTransactions == |vTxid| <= MAX_TRANSACTIONS && height <= 31
      requires FirstLeaf(height, pos, lo) && lo < nTransactions
      ensures hash == CalcHash(hs, vTxid, height, lo)
      decreases height
    {
      hide FirstLeaf;
      hide Pow;
      if height == 0 {
        LeafFirst(pos, lo);
        hash := vTxid[pos];
      } else {
        ChildOffsets(height, pos, lo);
        var left := NodeHash(height - 1, pos * 2, vTxid, lo);
        var right := left;
        var hasRight := HasNode(height - 1, pos * 2 + 1, lo + Pow(2, height - 1));
        if hasRight {
          right := NodeHash(height - 1, pos * 2 + 1, vTxid, lo + Pow(2, height - 1));
        }
        hash := hs.combine(left, right);
      }
    }

    /** Depth-first encoding of the subtree at (height, pos). */
    method TraverseAndBuild(height: nat, pos: nat, vTxid: seq<Hash>, vMatch: seq<bool>, ghost lo: nat)
      requires nTransactions == |vTxid| == |vMatch| <= MAX_TRANSACTIONS && height <= 31
      requires FirstLeaf(height, pos, lo) && lo < nTransactions
      modifies this`vBits, this`vHash
      ensures vBits == old(vBits) + Build(hs, vTxid, vMatch, height, lo).bits
      ensures vHash == old(vHash) + Build(hs, vTxid, vMatch, height, lo).hashes
      decreases height
    {
      hide FirstLeaf;
      hide Pow;
      hide AnyMatch;
      hide CalcHash;
      BuildLeaf(hs, vTxid, vMatch, height, lo);
      var fParentOfMatch := ParentOfMatch(height, pos, vMatch, lo);
      hide Build;
      vBits := vBits + [fParentOfMatch];
      if height == 0 || !fParentOfMatch {
        var hash := NodeHash(height, pos, vTxid, lo);
        vHash := vHash + [hash];
      } else {
        BuildInner(hs, vTxid, vMatch, height, lo);
        BuildChildren(height, pos, vTxid, vMatch, lo);
      }
    }

    /** The descent of the encoder into the children of a node above a match. */
    method BuildChildren(height: nat, pos: nat, vTxid: seq<Hash>, vMatch: seq<bool>, ghost lo: nat)
      requires nTransactions == |vTxid| == |vMatch| <= MAX_TRANSACTIONS && 0 < height <= 31
      requires FirstLeaf(height, pos, lo) && lo < nTransactions
      modifies this`vBits, this`vHash
      ensures vBits == old(vBits) + ChildEncoding(hs, vTxid, vMatch, height, lo).bits
      ensures vHash == old(vHash) + ChildEncoding(hs, vTxid, vMatch, height, lo).hashes
      decreases height, 0
    {
      hide FirstLeaf;
      hide Pow;
      hide Build;
      ChildOffsets(height, pos, lo);
      TraverseAndBuild(height - 1, pos * 2, vTxid, vMatch, lo);
      var hasRight := HasNode(height - 1, pos * 2 + 1, lo + Pow(2, height - 1));
      if hasRight {
        TraverseAndBuild(height - 1, pos * 2 + 1, vTxid, vMatch, lo + Pow(2, height - 1));
        ghost var l := Build(hs, vTxid, vMatch, height - 1, lo);
        ghost var r := Build(hs, vTxid, vMatch, height - 1, lo + Pow(2, height - 1));
        ConcatAssoc(old(vBits), l.bits, r.bits);
        ConcatAssoc(old(vHash), l.hashes, r.hashes);
      }
    }

    /** Depth-first decoding of the subtree at (height, pos), advancing both counters. */
    method TraverseAndExtract(height: nat, pos: nat, bitsUsed: nat, hashUsed: nat, matchIn: seq<Hash>,
                              indexIn: seq<nat>, ghost lo: nat)
      returns (hash: Hash, nBitsUsed: nat, nHashUsed: nat, vMatch: seq<Hash>, vnIndex: seq<nat>)
      requires nTransactions <= MAX_TRANSACTIONS && height <= 31
      requires FirstLeaf(height, pos, lo) && lo < nTransactions
      requires bitsUsed <= |vBits| && hashUsed <= |vHash|
      modifies this`fBad
      ensures nBitsUsed <= |vBits| && nHashUsed <= |vHash|
      ensures ExtractsAs(ParseAt(hs, nTransactions, vBits, vHash, height, lo, bitsUsed, hashUsed),
                         hash, vBits[nBitsUsed..], vHash[nHashUsed..], matchIn, vMatch, indexIn, vnIndex)
      ensures fBad == (old(fBad) || ParseAt(hs, nTransactions, vBits, vHash, height, lo, bitsUsed, hashUsed).bad)
      decreases height
    {
      hash, nBitsUsed, nHashUsed, vMatch, vnIndex := hs.zero, bitsUsed, hashUsed, matchIn, indexIn;
      if nBitsUsed >= |vBits| {
        fBad := true;
        return;
      }
      var fParentOfMatch := vBits[nBitsUsed];
      nBitsUsed := nBitsUsed + 1;
      if height == 0 || !fParentOfMatch {
        if nHashUsed >= |vHash| {
          fBad := true;
          return;
        }
        hash := vHash[nHashUsed];
        nHashUsed := nHashUsed + 1;
        if height == 0 && fParentOfMatch {
          vMatch := vMatch + [hash];
          vnIndex := vnIndex + [pos];
        }
      } else {
        ParseAtInner(hs, nTransactions, vBits, vHash, height, lo, bitsUsed, hashUsed);
        hash, nBitsUsed, nHashUsed, vMatch, vnIndex :=
          ExtractChildren(height, pos, nBitsUsed, nHashUsed, vMatch, vnIndex, lo);
      }
    }

    /** The descent into the children of an inner node, whose own bit is already consumed. */
    method ExtractChildren(height: nat, pos: nat, bitsUsed: nat, hashUsed: nat, matchIn: seq<Hash>, indexIn: seq<nat>,
                           ghost lo: nat)
      returns (hash: Hash, nBitsUsed: nat, nHashUsed: nat, vMatch: seq<Hash>, vnIndex: seq<nat>)
      requires nTransactions <= MAX_TRANSACTIONS && 0 < height <= 31
      requires FirstLeaf(height, pos, lo) && lo < nTransactions
      requires bitsUsed <= |vBits| && hashUsed <= |vHash|
      modifies this`fBad
      ensures nBitsUsed <= |vBits| && nHashUsed <= |vHash|
      ensures ExtractsAs(ParseChildren(hs, nTransactions, vBits, vHash, height, lo, bitsUsed, hashUsed),
                         hash, vBits[nBitsUsed..], vHash[nHashUsed..], matchIn, vMatch, indexIn, vnIndex)
      ensures fBad == (old(fBad) || ParseChildren(hs, nTransactions, vBits, vHash, height, lo, bitsUsed, hashUsed).bad)
      decreases height, 0
    {
      hide FirstLeaf;
      hide Pow;
      ChildOffsets(height, pos, lo);
      ghost var pl := ParseAt(hs, nTransactions, vBits, vHash, height - 1, lo, bitsUsed, hashUsed);
      var left, right;
      left, nBitsUsed, nHashUsed, vMatch, vnIndex :=
        TraverseAndExtract(height - 1, pos * 2, bitsUsed, hashUsed, matchIn, indexIn, lo);
      ghost var mid := lo + Pow(2, height - 1);
      var hasRight := HasNode(height - 1, pos * 2 + 1, mid);
      if hasRight {
        ghost var pr := ParseAt(hs, nTransactions, vBits, vHash, height - 1, mid, nBitsUsed, nHashUsed);
        ghost var leftMatch, leftIndex := vMatch, vnIndex;
        right, nBitsUsed, nHashUsed, vMatch, vnIndex :=
          TraverseAndExtract(height - 1, pos * 2 + 1, nBitsUsed, nHashUsed, vMatch, vnIndex, mid);
        if right == left {
          fBad := true;
        }
        JoinExtracts(hs, pl, pr, left, right, leftMatch, leftIndex, matchIn, vMatch, indexIn, vnIndex);
      } else {
        right := left;
      }
      hash := hs.combine(left, right);
    }

    /** Root and matches of the tree, or the zero hash on failure. */
    method ExtractMatches(indexIn: seq<nat>) returns (root: Hash, vMatch: seq<Hash>, vnIndex: seq<nat>)
      requires nTransactions <= MAX_TRANSACTIONS
      modifies this`fBad
      ensures var x := Extract(hs, nTransactions, vBits, vHash, old(fBad));
              root == x.root && vMatch == Ids(x.matches) && vnIndex == indexIn + Indices(x.matches)
    {
      vMatch, vnIndex := [], indexIn;
      if nTransactions == 0 || |vHash| > nTransactions || |vBits| < |vHash| {
        return hs.zero, vMatch, vnIndex;
      }
      var nHeight := TreeHeight();
      HeightExact(nTransactions);
      var nBitsUsed, nHashUsed;
      assert vBits[0..] == vBits && vHash[0..] == vHash;
      root, nBitsUsed, nHashUsed, vMatch, vnIndex := TraverseAndExtract(nHeight, 0, 0, 0, vMatch, vnIndex, 0);
      if fBad || (nBitsUsed + 7) / 8 != (|vBits| + 7) / 8 || nHashUsed != |vHash| {
        root := hs.zero;
      }
    }
  }

  /**
   Encode, pack to bytes, send, unpack and decode: the receiver gets the Merkle root and exactly
   the selected ids with their indices, in block order.
   */
  method Relay(hs: Hasher, vTxid: seq<Hash>, vMatch: seq<bool>) returns (root: Hash, ids: seq<Hash>, indices: seq<nat>)
    requires Injective(hs) && Distinct(vTxid)
    requires 0 < |vTxid| == |vMatch| && |vTxid| <= MAX_TRANSACTIONS
    ensures root == CalcHash(hs, vTxid, Height(|vTxid|), 0)
    ensures ids == Ids(Selected(vTxid, vMatch, 0, |vTxid|))
    ensures indices == Indices(Selected(vTxid, vMatch, 0, |vTxid|))
  {
    var sender := new PartialMerkleTree(hs, vTxid, vMatch);
    var vBytes := PackBits(sender.vBits);
    var receiver := new PartialMerkleTree.FromWire(hs, sender.nTransactions, sender.vHash, vBytes);
    ExtractBuild(hs, vTxid, vMatch, receiver.vBits);
    root, ids, indices := receiver.ExtractMatches([]);
  }
}
