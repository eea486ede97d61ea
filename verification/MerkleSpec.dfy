/**
 Partial Merkle trees (BIP 37) as functions on values: what the depth-first encoder writes,
 what the depth-first decoder reads, and the laws between the two.

 A node of the tree is named by its height and by `lo`, the index of the first leaf below it,
 so a node at position pos and height h has lo == pos * 2^h and covers leaves [lo, lo + 2^h).
 */
module MerkleSpec {
  import opened Numbers

  type Hash(==, 0, !new)

  /** The two-input hash of the tree, and the all-zero hash that reports failure. */
  datatype Hasher = Hasher(combine: (Hash, Hash) -> Hash, zero: Hash)

  ghost predicate Injective(hs: Hasher) {
    forall a, b, c, d {:trigger hs.combine(a, b), hs.combine(c, d)} ::
      hs.combine(a, b) == hs.combine(c, d) ==> a == c && b == d
  }

  ghost predicate Distinct(txids: seq<Hash>) {
    forall i, j :: 0 <= i < j < |txids| ==> txids[i] != txids[j]
  }

  /** Hash of a node; a missing right child is replaced by the left one. */
  function CalcHash(hs: Hasher, txids: seq<Hash>, h: nat, lo: nat): Hash
    requires lo < |txids|
    decreases h
  {
    if h == 0 then txids[lo]
    else
      var left := CalcHash(hs, txids, h - 1, lo);
      var mid := lo + Pow(2, h - 1);
      var right := if mid < |txids| then CalcHash(hs, txids, h - 1, mid) else left;
      hs.combine(left, right)
  }

  predicate AnyMatch(mask: seq<bool>, lo: nat, hi: nat) {
    exists p :: lo <= p < hi && p < |mask| && mask[p]
  }

  datatype Encoding = Encoding(bits: seq<bool>, hashes: seq<Hash>)

  /** Bits and hashes written for the subtree at (h, lo). */
  function Build(hs: Hasher, txids: seq<Hash>, mask: seq<bool>, h: nat, lo: nat): Encoding
    requires lo < |txids| == |mask|
    decreases h
  {
    var any := AnyMatch(mask, lo, lo + Pow(2, h));
    if h == 0 || !any then
      Encoding([any], [CalcHash(hs, txids, h, lo)])
    else
      var l := Build(hs, txids, mask, h - 1, lo);
      var mid := lo + Pow(2, h - 1);
      if mid < |txids| then
        var r := Build(hs, txids, mask, h - 1, mid);
        Encoding([any] + (l.bits + r.bits), l.hashes + r.hashes)
      else
        Encoding([any] + l.bits, l.hashes)
  }

  /** A matched transaction: its id and its index in the block. */
  type Match = (Hash, nat)

  datatype Parsed = Parsed(hash: Hash, bits: seq<bool>, hashes: seq<Hash>, matches: seq<Match>, bad: bool)

  /** Two decoded children; equal hashes are an error. */
  function Joined(hs: Hasher, l: Parsed, r: Parsed): Parsed {
    Parsed(hs.combine(l.hash, r.hash), r.bits, r.hashes, l.matches + r.matches, l.bad || r.bad || r.hash == l.hash)
  }

  /**
   Decoding of the subtree at (h, lo); returns the bits and hashes not consumed.
   The decoder keeps going after an error.
   */
  function Parse(hs: Hasher, n: nat, bits: seq<bool>, hashes: seq<Hash>, h: nat, lo: nat): (p: Parsed)
    ensures |p.bits| <= |bits| && |p.hashes| <= |hashes|
    decreases h
  {
    if bits == [] then
      Parsed(hs.zero, bits, hashes, [], true)
    else if h == 0 || !bits[0] then
      if hashes == [] then Parsed(hs.zero, bits[1..], hashes, [], true)
      else Parsed(hashes[0], bits[1..], hashes[1..], if h == 0 && bits[0] then [(hashes[0], lo)] else [], false)
    else
      var l := Parse(hs, n, bits[1..], hashes, h - 1, lo);
      var mid := lo + Pow(2, h - 1);
      if mid < n then
        var r := Parse(hs, n, l.bits, l.hashes, h - 1, mid);
        Joined(hs, l, r)
      else
        Parsed(hs.combine(l.hash, l.hash), l.bits, l.hashes, l.matches, l.bad)
  }

  /** Height of the tree over n leaves: the least h with at most one node at that level. */
  function Height(n: nat): (h: nat)
    ensures n <= Pow(2, h)
    ensures forall j: nat :: j < h ==> Pow(2, j) < n
  {
    HeightFrom(n, 0)
  }

  function HeightFrom(n: nat, h: nat): (r: nat)
    requires forall j: nat :: j < h ==> Pow(2, j) < n
    ensures h <= r && n <= Pow(2, r)
    ensures forall j: nat :: j < r ==> Pow(2, j) < n
    decreases n - Pow(2, h)
  {
    if n <= Pow(2, h) then h
    else
      PowPositive(2, h);
      HeightFrom(n, h + 1)
  }

  datatype Extraction = Extraction(root: Hash, matches: seq<Match>)

  /** The whole decoder: size checks, traversal, and the check that everything was consumed. */
  function Extract(hs: Hasher, n: nat, bits: seq<bool>, hashes: seq<Hash>, wasBad: bool): Extraction {
    if n == 0 || |hashes| > n || |bits| < |hashes| then
      Extraction(hs.zero, [])
    else
      var p := Parse(hs, n, bits, hashes, Height(n), 0);
      var used := |bits| - |p.bits|;
      if wasBad || p.bad || (used + 7) / 8 != (|bits| + 7) / 8 || p.hashes != [] then
        Extraction(hs.zero, p.matches)
      else
        Extraction(p.hash, p.matches)
  }

  /** The ids selected by the mask among leaves lo..hi, in block order. */
  function Selected(txids: seq<Hash>, mask: seq<bool>, lo: nat, hi: nat): seq<Match>
    requires lo <= hi <= |txids| == |mask|
    decreases hi - lo
  {
    if lo == hi then []
    else (if mask[lo] then [(txids[lo], lo)] else []) + Selected(txids, mask, lo + 1, hi)
  }

  function End(n: nat, h: nat, lo: nat): (e: nat)
    requires lo < n
    ensures lo < e <= n
  {
    PowPositive(2, h);
    Min(lo + Pow(2, h), n)
  }

  // ---------- laws of the node hash ----------

  /** With distinct leaves and an injective hash, two nodes of one level never share a hash. */
  lemma {:induction false} NodeHashesDistinct(hs: Hasher, txids: seq<Hash>, h: nat, lo: nat, lo': nat)
    requires Injective(hs) && Distinct(txids)
    requires lo < |txids| && lo' < |txids| && lo != lo'
    ensures CalcHash(hs, txids, h, lo) != CalcHash(hs, txids, h, lo')
    decreases h
  {
    if h > 0 {
      NodeHashesDistinct(hs, txids, h - 1, lo, lo');
    }
  }

  // ---------- soundness ----------

  ghost predicate Genuine(txids: seq<Hash>, ms: seq<Match>) {
    forall i :: 0 <= i < |ms| ==> ms[i].1 < |txids| && ms[i].0 == txids[ms[i].1]
  }

  ghost predicate Ascending(ms: seq<Match>, lo: nat, hi: nat) {
    && (forall i :: 0 <= i < |ms| ==> lo <= ms[i].1 < hi)
    && (forall i, j :: 0 <= i < j < |ms| ==> ms[i].1 < ms[j].1)
  }

  lemma AscendingJoin(x: seq<Match>, y: seq<Match>, lo: nat, mid: nat, hi: nat)
    requires lo <= mid <= hi && Ascending(x, lo, mid) && Ascending(y, mid, hi)
    ensures Ascending(x + y, lo, hi)
  {
  }

  /** Indices come out in strictly ascending order inside the subtree, whatever the input. */
  lemma {:induction false} ParseAscending(hs: Hasher, n: nat, bits: seq<bool>, hashes: seq<Hash>, h: nat, lo: nat)
    ensures Ascending(Parse(hs, n, bits, hashes, h, lo).matches, lo, lo + Pow(2, h))
    decreases h
  {
    if bits != [] && h > 0 && bits[0] {
      var l := Parse(hs, n, bits[1..], hashes, h - 1, lo);
      var mid := lo + Pow(2, h - 1);
      ParseAscending(hs, n, bits[1..], hashes, h - 1, lo);
      if mid < n {
        ParseAscending(hs, n, l.bits, l.hashes, h - 1, mid);
        AscendingJoin(l.matches, Parse(hs, n, l.bits, l.hashes, h - 1, mid).matches, lo, mid, mid + Pow(2, h - 1));
      }
    } else {
      PowPositive(2, h);
    }
  }

  /** A subtree that decodes to the genuine node hash yields only genuine matches, whatever the claimed count. */
  lemma {:induction false} ParseSound(hs: Hasher, txids: seq<Hash>, n: nat, bits: seq<bool>, hashes: seq<Hash>,
                                      h: nat, lo: nat)
    requires Injective(hs) && lo < |txids| && lo < n && (n == |txids| || Distinct(txids))
    requires !Parse(hs, n, bits, hashes, h, lo).bad
    requires Parse(hs, n, bits, hashes, h, lo).hash == CalcHash(hs, txids, h, lo)
    ensures Genuine(txids, Parse(hs, n, bits, hashes, h, lo).matches)
    decreases h
  {
    if h > 0 && bits[0] {
      var l := Parse(hs, n, bits[1..], hashes, h - 1, lo);
      var mid := lo + Pow(2, h - 1);
      ParseSound(hs, txids, n, bits[1..], hashes, h - 1, lo);
      if mid < n && mid < |txids| {
        ParseSound(hs, txids, n, l.bits, l.hashes, h - 1, mid);
      } else if mid < |txids| {
        PowPositive(2, h - 1);
        NodeHashesDistinct(hs, txids, h - 1, lo, mid);
      }
    }
  }

  /**
   Soundness: whoever produced the bits and hashes, if decoding returns the Merkle root of the
   block's ids (and that root is not the failure value), every reported pair names a real
   transaction at its real index, and indices are strictly ascending.
   */
  lemma ExtractSound(hs: Hasher, txids: seq<Hash>, bits: seq<bool>, hashes: seq<Hash>, wasBad: bool)
    requires Injective(hs) && |txids| > 0
    requires CalcHash(hs, txids, Height(|txids|), 0) != hs.zero
    requires Extract(hs, |txids|, bits, hashes, wasBad).root == CalcHash(hs, txids, Height(|txids|), 0)
    ensures Genuine(txids, Extract(hs, |txids|, bits, hashes, wasBad).matches)
    ensures Ascending(Extract(hs, |txids|, bits, hashes, wasBad).matches, 0, |txids|)
  {
    var h := Height(|txids|);
    ParseSound(hs, txids, |txids|, bits, hashes, h, 0);
    ParseAscending(hs, |txids|, bits, hashes, h, 0);
  }

  /**
   The same for a tree that claims another number of transactions, as long as its height is that of
   the block: it cannot show a transaction the block does not have.
   */
  lemma ExtractSoundAnyCount(hs: Hasher, txids: seq<Hash>, n: nat, bits: seq<bool>, hashes: seq<Hash>, wasBad: bool)
    requires Injective(hs) && Distinct(txids) && |txids| > 0 && n > 0 && Height(n) == Height(|txids|)
    requires CalcHash(hs, txids, Height(|txids|), 0) != hs.zero
    requires Extract(hs, n, bits, hashes, wasBad).root == CalcHash(hs, txids, Height(|txids|), 0)
    ensures Genuine(txids, Extract(hs, n, bits, hashes, wasBad).matches)
    ensures Ascending(Extract(hs, n, bits, hashes, wasBad).matches, 0, |txids|)
  {
    ParseSound(hs, txids, n, bits, hashes, Height(n), 0);
    ParseAscending(hs, n, bits, hashes, Height(n), 0);
  }

  /** A lower tree can pass an inner node off as a transaction: the root itself, for a claimed single one. */
  lemma LowerTree(hs: Hasher, txids: seq<Hash>)
    requires |txids| > 0
    ensures var root := CalcHash(hs, txids, Height(|txids|), 0);
            Extract(hs, 1, [true], [root], false) == Extraction(root, [(root, 0)])
  {
    var root := CalcHash(hs, txids, Height(|txids|), 0);
    assert Pow(2, 0) == 1 && Height(1) == 0;
    ParseLeaf(hs, 1, 0, 0, true, root, [], []);
    assert [true] + [] == [true] && [root] + [] == [root];
  }

  /** Decoding never reports a pair that is not in the block, unless it returns something else than the root. */
  ghost predicate Sound(hs: Hasher, txids: seq<Hash>)
    requires |txids| > 0
  {
    forall bits, hashes, wasBad ::
      var x := Extract(hs, |txids|, bits, hashes, wasBad);
      x.root == CalcHash(hs, txids, Height(|txids|), 0) ==> Genuine(txids, x.matches)
  }

  /** A run of set bits and one bogus hash is reported as leaf 0 and then runs dry. */
  lemma {:induction false} SpineParse(hs: Hasher, n: nat, x: Hash, h: nat)
    ensures var p := Parse(hs, n, seq(h + 1, _ => true), [x], h, 0);
            p.bits == [] && |p.matches| > 0 && p.matches[0] == (x, 0)
    decreases h
  {
    if h > 0 {
      assert seq(h + 1, _ => true)[1..] == seq(h, _ => true);
      SpineParse(hs, n, x, h - 1);
    }
  }

  /**
   Failure is reported as the zero hash, with the pairs collected so far left in place. So
   decoding is sound exactly for the blocks whose Merkle root is not the zero hash.
   */
  lemma SoundIffRootNonzero(hs: Hasher, txids: seq<Hash>, x: Hash)
    requires Injective(hs) && |txids| > 0 && x != txids[0]
    ensures Sound(hs, txids) <==> CalcHash(hs, txids, Height(|txids|), 0) != hs.zero
  {
    var root := CalcHash(hs, txids, Height(|txids|), 0);
    if root == hs.zero {
      ForgeZeroRoot(hs, txids, x);
    } else {
      forall bits, hashes, wasBad | Extract(hs, |txids|, bits, hashes, wasBad).root == root
        ensures Genuine(txids, Extract(hs, |txids|, bits, hashes, wasBad).matches)
      {
        ExtractSound(hs, txids, bits, hashes, wasBad);
      }
    }
  }

  lemma ForgeZeroRoot(hs: Hasher, txids: seq<Hash>, x: Hash)
    requires |txids| > 0 && x != txids[0]
    requires CalcHash(hs, txids, Height(|txids|), 0) == hs.zero
    ensures !Sound(hs, txids)
  {
    var bits := ForgedBits(|txids|);
    ForgedExtract(hs, |txids|, x);
    assert !Genuine(txids, Extract(hs, |txids|, bits, [x], false).matches);
  }

  function ForgedBits(n: nat): seq<bool> {
    if n == 1 then [true] + seq(8, _ => false) else seq(Height(n) + 1, _ => true)
  }

  lemma ForgedExtract(hs: Hasher, n: nat, x: Hash)
    requires n > 0
    ensures var e := Extract(hs, n, ForgedBits(n), [x], false);
            e.root == hs.zero && |e.matches| > 0 && e.matches[0] == (x, 0)
  {
    var h, bits := Height(n), ForgedBits(n);
    if n == 1 {
      assert Pow(2, 0) == 1;
      ParseLeaf(hs, n, h, 0, true, x, bits[1..], []);
      assert bits == [true] + bits[1..] && [x] == [x] + [];
    } else {
      ForgedParse(hs, n, x);
    }
  }

  lemma ForgedParse(hs: Hasher, n: nat, x: Hash)
    requires n > 1
    ensures var p := Parse(hs, n, ForgedBits(n), [x], Height(n), 0);
            p.bad && |p.matches| > 0 && p.matches[0] == (x, 0)
  {
    var h := Height(n);
    assert Pow(2, h - 1) < n;
    SpineParse(hs, n, x, h - 1);
    assert ForgedBits(n)[1..] == seq(h, _ => true);
  }

  // ---------- completeness ----------

  lemma {:induction false} SelectedSplit(txids: seq<Hash>, mask: seq<bool>, lo: nat, mid: nat, hi: nat)
    requires lo <= mid <= hi <= |txids| == |mask|
    ensures Selected(txids, mask, lo, hi) == Selected(txids, mask, lo, mid) + Selected(txids, mask, mid, hi)
    decreases mid - lo
  {
    if lo < mid {
      SelectedSplit(txids, mask, lo + 1, mid, hi);
    }
  }

  lemma {:induction false} SelectedNone(txids: seq<Hash>, mask: seq<bool>, lo: nat, hi: nat)
    requires lo <= hi <= |txids| == |mask|
    requires !AnyMatch(mask, lo, hi)
    ensures Selected(txids, mask, lo, hi) == []
    decreases hi - lo
  {
    if lo < hi {
      SelectedNone(txids, mask, lo + 1, hi);
    }
  }

  /** Somewhere at or below (h, lo) the encoder goes down to two children with the same hash. */
  ghost predicate Twins(hs: Hasher, txids: seq<Hash>, mask: seq<bool>, h: nat, lo: nat)
    requires lo < |txids| == |mask|
    decreases h
  {
    h > 0 && AnyMatch(mask, lo, lo + Pow(2, h)) &&
    var mid := lo + Pow(2, h - 1);
    || Twins(hs, txids, mask, h - 1, lo)
    || (mid < |txids| && (Twins(hs, txids, mask, h - 1, mid)
                          || CalcHash(hs, txids, h - 1, lo) == CalcHash(hs, txids, h - 1, mid)))
  }

  /** The decoding of (h, lo) that leaves exactly `bits` and `hashes` over. */
  ghost function Decoded(hs: Hasher, txids: seq<Hash>, mask: seq<bool>, h: nat, lo: nat, bits: seq<bool>,
                   hashes: seq<Hash>): Parsed
    requires lo < |txids| == |mask|
  {
    Parsed(CalcHash(hs, txids, h, lo), bits, hashes, Selected(txids, mask, lo, End(|txids|, h, lo)),
           Twins(hs, txids, mask, h, lo))
  }

  /** Decoding what the encoder wrote for a subtree, followed by anything, gives back that anything. */
  lemma {:induction false} ParseBuild(hs: Hasher, txids: seq<Hash>, mask: seq<bool>, h: nat, lo: nat, e: Encoding,
                                      bits: seq<bool>, hashes: seq<Hash>)
    requires lo < |txids| == |mask|
    requires e == Build(hs, txids, mask, h, lo)
    ensures Parse(hs, |txids|, e.bits + bits, e.hashes + hashes, h, lo) == Decoded(hs, txids, mask, h, lo, bits, hashes)
    decreases h
  {
    hide Twins;
    hide Selected;
    hide Parse;
    hide CalcHash;
    hide Pow;
    hide AnyMatch;
    if h == 0 || !AnyMatch(mask, lo, lo + Pow(2, h)) {
      ParseBuildLeaf(hs, txids, mask, h, lo, e.bits[0], bits, hashes);
    } else {
      var l := Build(hs, txids, mask, h - 1, lo);
      var mid := lo + Pow(2, h - 1);
      if mid < |txids| {
        ParseBuildPair(hs, txids, mask, h, lo, l, Build(hs, txids, mask, h - 1, mid), bits, hashes);
      } else {
        ParseBuildOne(hs, txids, mask, h, lo, l, bits, hashes);
      }
    }
  }

  lemma ParseLeaf(hs: Hasher, n: nat, h: nat, lo: nat, bit: bool, hash: Hash, bits: seq<bool>, hashes: seq<Hash>)
    requires h == 0 || !bit
    ensures Parse(hs, n, [bit] + bits, [hash] + hashes, h, lo)
         == Parsed(hash, bits, hashes, if h == 0 && bit then [(hash, lo)] else [], false)
  {
  }

  lemma ParseBuildLeaf(hs: Hasher, txids: seq<Hash>, mask: seq<bool>, h: nat, lo: nat, any: bool, bits: seq<bool>,
                       hashes: seq<Hash>)
    requires lo < |txids| == |mask| && any == AnyMatch(mask, lo, lo + Pow(2, h))
    requires h == 0 || !any
    ensures Parse(hs, |txids|, [any] + bits, [CalcHash(hs, txids, h, lo)] + hashes, h, lo)
         == Decoded(hs, txids, mask, h, lo, bits, hashes)
  {
    ParseLeaf(hs, |txids|, h, lo, any, CalcHash(hs, txids, h, lo), bits, hashes);
    SelectedLeaf(txids, mask, h, lo);
  }

  lemma {:induction false} ParseBuildOne(hs: Hasher, txids: seq<Hash>, mask: seq<bool>, h: nat, lo: nat, l: Encoding,
                                         bits: seq<bool>, hashes: seq<Hash>)
    requires lo < |txids| == |mask| && h > 0 && AnyMatch(mask, lo, lo + Pow(2, h))
    requires lo + Pow(2, h - 1) >= |txids|
    requires l == Build(hs, txids, mask, h - 1, lo)
    ensures Parse(hs, |txids|, [true] + l.bits + bits, l.hashes + hashes, h, lo)
            == Decoded(hs, txids, mask, h, lo, bits, hashes)
    decreases h, 0
  {
    ParseBuild(hs, txids, mask, h - 1, lo, l, bits, hashes);
    ParseOne(hs, |txids|, h, lo, l, bits, hashes);
  }

  lemma {:induction false} ParseBuildPair(hs: Hasher, txids: seq<Hash>, mask: seq<bool>, h: nat, lo: nat,
                                          l: Encoding, r: Encoding,
                                          bits: seq<bool>, hashes: seq<Hash>)
    requires lo < |txids| == |mask| && h > 0 && AnyMatch(mask, lo, lo + Pow(2, h))
    requires lo + Pow(2, h - 1) < |txids|
    requires l == Build(hs, txids, mask, h - 1, lo) && r == Build(hs, txids, mask, h - 1, lo + Pow(2, h - 1))
    ensures Parse(hs, |txids|, [true] + (l.bits + r.bits) + bits, l.hashes + r.hashes + hashes, h, lo)
         == Decoded(hs, txids, mask, h, lo, bits, hashes)
    decreases h, 0
  {
    ParseBuild(hs, txids, mask, h - 1, lo, l, r.bits + bits, r.hashes + hashes);
    ParseBuild(hs, txids, mask, h - 1, lo + Pow(2, h - 1), r, bits, hashes);
    JoinPair(hs, txids, mask, h, lo, l, r, bits, hashes);
  }

  lemma JoinPair(hs: Hasher, txids: seq<Hash>, mask: seq<bool>, h: nat, lo: nat, l: Encoding, r: Encoding,
                 bits: seq<bool>, hashes: seq<Hash>)
    requires lo < |txids| == |mask| && h > 0 && AnyMatch(mask, lo, lo + Pow(2, h))
    requires lo + Pow(2, h - 1) < |txids|
    requires Parse(hs, |txids|, l.bits + (r.bits + bits), l.hashes + (r.hashes + hashes), h - 1, lo)
          == Decoded(hs, txids, mask, h - 1, lo, r.bits + bits, r.hashes + hashes)
    requires Parse(hs, |txids|, r.bits + bits, r.hashes + hashes, h - 1, lo + Pow(2, h - 1))
          == Decoded(hs, txids, mask, h - 1, lo + Pow(2, h - 1), bits, hashes)
    ensures Parse(hs, |txids|, [true] + (l.bits + r.bits) + bits, l.hashes + r.hashes + hashes, h, lo)
         == Decoded(hs, txids, mask, h, lo, bits, hashes)
  {
    ParsePair(hs, |txids|, h, lo, l, r, bits, hashes);
    DecodedPair(hs, txids, mask, h, lo, r.bits + bits, r.hashes + hashes, bits, hashes);
  }

  /** What the decoder makes of an inner node whose two children were written one after the other. */
  lemma ParsePair(hs: Hasher, n: nat, h: nat, lo: nat, l: Encoding, r: Encoding, bits: seq<bool>, hashes: seq<Hash>)
    requires h > 0 && lo + Pow(2, h - 1) < n
    requires var pl := Parse(hs, n, l.bits + (r.bits + bits), l.hashes + (r.hashes + hashes), h - 1, lo);
             pl.bits == r.bits + bits && pl.hashes == r.hashes + hashes
    ensures Parse(hs, n, [true] + (l.bits + r.bits) + bits, l.hashes + r.hashes + hashes, h, lo)
         == Joined(hs, Parse(hs, n, l.bits + (r.bits + bits), l.hashes + (r.hashes + hashes), h - 1, lo),
                   Parse(hs, n, r.bits + bits, r.hashes + hashes, h - 1, lo + Pow(2, h - 1)))
  {
    assert ([true] + (l.bits + r.bits) + bits)[1..] == l.bits + (r.bits + bits);
    assert l.hashes + r.hashes + hashes == l.hashes + (r.hashes + hashes);
  }

  lemma DecodedPair(hs: Hasher, txids: seq<Hash>, mask: seq<bool>, h: nat, lo: nat, bl: seq<bool>, hl: seq<Hash>,
                    bits: seq<bool>, hashes: seq<Hash>)
    requires lo < |txids| == |mask| && h > 0 && AnyMatch(mask, lo, lo + Pow(2, h))
    requires lo + Pow(2, h - 1) < |txids|
    ensures Joined(hs, Decoded(hs, txids, mask, h - 1, lo, bl, hl),
                   Decoded(hs, txids, mask, h - 1, lo + Pow(2, h - 1), bits, hashes))
         == Decoded(hs, txids, mask, h, lo, bits, hashes)
  {
    var mid := lo + Pow(2, h - 1);
    PowPositive(2, h - 1);
    SelectedSplit(txids, mask, lo, mid, End(|txids|, h, lo));
  }

  lemma ParseOne(hs: Hasher, n: nat, h: nat, lo: nat, l: Encoding, bits: seq<bool>, hashes: seq<Hash>)
    requires h > 0 && lo + Pow(2, h - 1) >= n
    ensures var p := Parse(hs, n, l.bits + bits, l.hashes + hashes, h - 1, lo);
            Parse(hs, n, [true] + l.bits + bits, l.hashes + hashes, h, lo) == p.(hash := hs.combine(p.hash, p.hash))
  {
    assert ([true] + l.bits + bits)[1..] == l.bits + bits;
  }

  lemma SelectedLeaf(txids: seq<Hash>, mask: seq<bool>, h: nat, lo: nat)
    requires lo < |txids| == |mask|
    requires h == 0 || !AnyMatch(mask, lo, lo + Pow(2, h))
    ensures Selected(txids, mask, lo, End(|txids|, h, lo))
         == if h == 0 && AnyMatch(mask, lo, lo + 1) then [(txids[lo], lo)] else []
  {
    if h == 0 {
      assert End(|txids|, h, lo) == lo + 1;
      assert Selected(txids, mask, lo + 1, lo + 1) == [];
    } else {
      SelectedNone(txids, mask, lo, End(|txids|, h, lo));
    }
  }

  // ---------- size bounds ----------

  ghost function Matched(txids: seq<Hash>, mask: seq<bool>, h: nat, lo: nat): nat
    requires lo < |txids| == |mask|
  {
    |Selected(txids, mask, lo, End(|txids|, h, lo))|
  }

  lemma {:induction false} SelectedSome(txids: seq<Hash>, mask: seq<bool>, lo: nat, hi: nat)
    requires lo <= hi <= |txids| == |mask|
    requires AnyMatch(mask, lo, hi)
    ensures |Selected(txids, mask, lo, hi)| >= 1
    decreases hi - lo
  {
    if !mask[lo] {
      var p :| lo <= p < hi && p < |mask| && mask[p];
      assert AnyMatch(mask, lo + 1, hi);
      SelectedSome(txids, mask, lo + 1, hi);
    }
  }

  /** Inner nodes with a single child that the encoder visits below (h, lo); they lie on the right edge. */
  ghost function LoneParents(n: nat, mask: seq<bool>, h: nat, lo: nat): nat {
    if h == 0 || !AnyMatch(mask, lo, lo + Pow(2, h)) then 0
    else if lo + Pow(2, h - 1) < n then
      LoneParents(n, mask, h - 1, lo) + LoneParents(n, mask, h - 1, lo + Pow(2, h - 1))
    else 1 + LoneParents(n, mask, h - 1, lo)
  }

  lemma {:induction false} LoneParentsBound(n: nat, mask: seq<bool>, h: nat, lo: nat)
    requires lo < n
    ensures lo + Pow(2, h) <= n ==> LoneParents(n, mask, h, lo) == 0
    ensures LoneParents(n, mask, h, lo) <= h
    decreases h
  {
    if h > 0 {
      LoneParentsBound(n, mask, h - 1, lo);
      if lo + Pow(2, h - 1) < n {
        LoneParentsBound(n, mask, h - 1, lo + Pow(2, h - 1));
      }
    }
  }

  /** At most one hash per leaf, and the exact number of bits. */
  lemma {:induction false} BuildSize(hs: Hasher, txids: seq<Hash>, mask: seq<bool>, h: nat, lo: nat)
    requires lo < |txids| == |mask|
    ensures var e := Build(hs, txids, mask, h, lo);
            && 1 <= |e.hashes| <= End(|txids|, h, lo) - lo
            && |e.bits| == 2 * |e.hashes| - 1 + LoneParents(|txids|, mask, h, lo)
    decreases h
  {
    hide Build;
    hide AnyMatch;
    hide Pow;
    hide End;
    EndPast(|txids|, h, lo);
    BuildSplit(hs, txids, mask, h, lo);
    if h > 0 && AnyMatch(mask, lo, lo + Pow(2, h)) {
      var mid := lo + Pow(2, h - 1);
      EndSplit(|txids|, h, lo);
      BuildSize(hs, txids, mask, h - 1, lo);
      if mid < |txids| {
        BuildSize(hs, txids, mask, h - 1, mid);
      }
    }
  }

  /** The sizes of an encoding from those of its parts. */
  lemma BuildSplit(hs: Hasher, txids: seq<Hash>, mask: seq<bool>, h: nat, lo: nat)
    requires lo < |txids| == |mask|
    ensures var e := Build(hs, txids, mask, h, lo);
            if h == 0 || !AnyMatch(mask, lo, lo + Pow(2, h)) then |e.bits| == |e.hashes| == 1
            else
              var l, mid := Build(hs, txids, mask, h - 1, lo), lo + Pow(2, h - 1);
              if mid < |txids| then
                var r := Build(hs, txids, mask, h - 1, mid);
                |e.bits| == 1 + |l.bits| + |r.bits| && |e.hashes| == |l.hashes| + |r.hashes|
              else |e.bits| == 1 + |l.bits| && |e.hashes| == |l.hashes|
  {
  }

  lemma EndPast(n: nat, h: nat, lo: nat)
    requires lo < n
    ensures End(n, h, lo) > lo
  {
    PowPositive(2, h);
  }

  lemma EndSplit(n: nat, h: nat, lo: nat)
    requires lo < n && h > 0
    ensures var mid := lo + Pow(2, h - 1);
            End(n, h, lo) == (if mid < n then End(n, h - 1, mid) else End(n, h - 1, lo))
            && (mid < n ==> End(n, h - 1, lo) == mid)
  {
    PowPositive(2, h - 1);
  }

  /**
   The size bounds of a whole encoding with N hashes: N <= transactions, N <= 1 + matched * height,
   N <= bits <= 2N - 1 + height.
   */
  lemma EncodingBounds(hs: Hasher, txids: seq<Hash>, mask: seq<bool>)
    requires 0 < |txids| == |mask|
    ensures var h := Height(|txids|);
            var e := Build(hs, txids, mask, h, 0);
            && 1 <= |e.hashes| <= |txids|
            && |e.hashes| <= 1 + |Selected(txids, mask, 0, |txids|)| * h
            && |e.hashes| <= |e.bits| <= 2 * |e.hashes| - 1 + h
  {
    var h := Height(|txids|);
    BuildSize(hs, txids, mask, h, 0);
    BuildHashCap(hs, txids, mask, h, 0);
    LoneParentsBound(|txids|, mask, h, 0);
  }

  /** At most 1 + matched * height hashes. */
  lemma {:induction false} BuildHashCap(hs: Hasher, txids: seq<Hash>, mask: seq<bool>, h: nat, lo: nat)
    requires lo < |txids| == |mask|
    ensures |Build(hs, txids, mask, h, lo).hashes| <= 1 + Matched(txids, mask, h, lo) * h
    decreases h
  {
    if h > 0 && AnyMatch(mask, lo, lo + Pow(2, h)) {
      MatchedSplit(txids, mask, h, lo);
      var mid := lo + Pow(2, h - 1);
      var l, ml := Build(hs, txids, mask, h - 1, lo), Matched(txids, mask, h - 1, lo);
      BuildHashCap(hs, txids, mask, h - 1, lo);
      if mid < |txids| {
        var r, mr := Build(hs, txids, mask, h - 1, mid), Matched(txids, mask, h - 1, mid);
        BuildHashCap(hs, txids, mask, h - 1, mid);
        CapPair(|l.hashes|, |r.hashes|, ml, mr, h);
      } else {
        CapPair(|l.hashes|, 0, ml, 0, h);
      }
    } else {
      MulMonotone(h, 0, Matched(txids, mask, h, lo));
    }
  }

  lemma CapPair(x: nat, y: nat, ml: nat, mr: nat, h: nat)
    requires h > 0 && ml + mr >= 1
    requires x <= 1 + ml * (h - 1) && y <= 1 + mr * (h - 1)
    ensures x + y <= 1 + (ml + mr) * h
  {
    assert ml * (h - 1) + mr * (h - 1) + (ml + mr) == (ml + mr) * h;
  }

  lemma MatchedSplit(txids: seq<Hash>, mask: seq<bool>, h: nat, lo: nat)
    requires lo < |txids| == |mask| && h > 0
    ensures AnyMatch(mask, lo, lo + Pow(2, h)) ==> Matched(txids, mask, h, lo) >= 1
    ensures var mid := lo + Pow(2, h - 1);
            Matched(txids, mask, h, lo)
            == Matched(txids, mask, h - 1, lo) + (if mid < |txids| then Matched(txids, mask, h - 1, mid) else 0)
  {
    var e, mid := End(|txids|, h, lo), lo + Pow(2, h - 1);
    if AnyMatch(mask, lo, lo + Pow(2, h)) {
      assert AnyMatch(mask, lo, e);
      SelectedSome(txids, mask, lo, e);
    }
    if mid < |txids| {
      SelectedSplit(txids, mask, lo, mid, e);
    }
  }

  /**
   What the encoding of any mask over any ids, with any number of false padding bits up to the next
   byte, decodes to: the selected ids, and the Merkle root unless the encoder met twins.
   */
  lemma ExtractExact(hs: Hasher, txids: seq<Hash>, mask: seq<bool>, bits: seq<bool>)
    requires 0 < |txids| == |mask|
    requires var e := Build(hs, txids, mask, Height(|txids|), 0);
             e.bits <= bits && (|bits| + 7) / 8 == (|e.bits| + 7) / 8
    ensures var h := Height(|txids|);
            Extract(hs, |txids|, bits, Build(hs, txids, mask, h, 0).hashes, false)
            == Extraction(if Twins(hs, txids, mask, h, 0) then hs.zero else CalcHash(hs, txids, h, 0),
                          Selected(txids, mask, 0, |txids|))
  {
    var h := Height(|txids|);
    var e := Build(hs, txids, mask, h, 0);
    assert bits == e.bits + bits[|e.bits|..] && e.hashes == e.hashes + [];
    ParseBuild(hs, txids, mask, h, 0, e, bits[|e.bits|..], []);
    BuildSize(hs, txids, mask, h, 0);
    hide Build;
    hide Parse;
    hide Twins;
  }

  /** Distinct ids have no twins. */
  lemma {:induction false} NoTwins(hs: Hasher, txids: seq<Hash>, mask: seq<bool>, h: nat, lo: nat)
    requires Injective(hs) && Distinct(txids) && lo < |txids| == |mask|
    ensures !Twins(hs, txids, mask, h, lo)
    decreases h
  {
    if h > 0 {
      var mid := lo + Pow(2, h - 1);
      PowPositive(2, h - 1);
      NoTwins(hs, txids, mask, h - 1, lo);
      if mid < |txids| {
        NoTwins(hs, txids, mask, h - 1, mid);
        NodeHashesDistinct(hs, txids, h - 1, lo, mid);
      }
    }
  }

  /** Completeness: over distinct ids every selection decodes to the Merkle root and exactly the selected ids. */
  lemma ExtractBuild(hs: Hasher, txids: seq<Hash>, mask: seq<bool>, bits: seq<bool>)
    requires Injective(hs) && Distinct(txids) && 0 < |txids| == |mask|
    requires var e := Build(hs, txids, mask, Height(|txids|), 0);
             e.bits <= bits && (|bits| + 7) / 8 == (|e.bits| + 7) / 8
    ensures Extract(hs, |txids|, bits, Build(hs, txids, mask, Height(|txids|), 0).hashes, false)
         == Extraction(CalcHash(hs, txids, Height(|txids|), 0), Selected(txids, mask, 0, |txids|))
  {
    ExtractExact(hs, txids, mask, bits);
    NoTwins(hs, txids, mask, Height(|txids|), 0);
  }

  // ---------- where twins are ----------

  /** Node (k, p) is above a match and has two children with the same hash. */
  ghost predicate TwinNode(hs: Hasher, txids: seq<Hash>, mask: seq<bool>, k: nat, p: nat) {
    && k > 0 && p + Pow(2, k - 1) < |txids| && AnyMatch(mask, p, p + Pow(2, k))
    && CalcHash(hs, txids, k - 1, p) == CalcHash(hs, txids, k - 1, p + Pow(2, k - 1))
  }

  /** Node (k, p) lies in the subtree at (h, lo), at place i of its level. */
  ghost predicate Under(h: nat, lo: nat, k: nat, i: nat, p: nat) {
    k <= h && i < Pow(2, h - k) && p == lo + i * Pow(2, k)
  }

  lemma UnderChild(h: nat, lo: nat, k: nat, i: nat, p: nat)
    requires h > 0 && k < h
    ensures Under(h - 1, lo, k, i, p) ==> Under(h, lo, k, i, p)
    ensures Under(h - 1, lo + Pow(2, h - 1), k, i, p) ==> Under(h, lo, k, Pow(2, h - 1 - k) + i, p)
    ensures Under(h, lo, k, i, p) && i < Pow(2, h - 1 - k) ==> Under(h - 1, lo, k, i, p)
    ensures Under(h, lo, k, i, p) && i >= Pow(2, h - 1 - k) ==>
              Under(h - 1, lo + Pow(2, h - 1), k, i - Pow(2, h - 1 - k), p)
  {
    var q := Pow(2, h - 1 - k);
    PowAdd(2, h - 1 - k, k);
    assert Pow(2, h - k) == 2 * q && q * Pow(2, k) == Pow(2, h - 1);
    assert (q + i) * Pow(2, k) == q * Pow(2, k) + i * Pow(2, k);
    assert (i - q) * Pow(2, k) == i * Pow(2, k) - q * Pow(2, k);
  }

  /** A node of the subtree covers leaves of the subtree. */
  lemma UnderCovers(h: nat, lo: nat, k: nat, i: nat, p: nat)
    requires Under(h, lo, k, i, p)
    ensures lo <= p && p + Pow(2, k) <= lo + Pow(2, h)
  {
    PowAdd(2, h - k, k);
    hide Pow;
    Cover(i, Pow(2, h - k), Pow(2, k));
  }

  lemma Cover(i: nat, q: nat, w: nat)
    requires i < q
    ensures 0 <= i * w && i * w + w <= q * w
  {
    MulMonotone(w, i + 1, q);
  }

  lemma {:induction false} TwinsFound(hs: Hasher, txids: seq<Hash>, mask: seq<bool>, h: nat, lo: nat)
    returns (k: nat, i: nat, p: nat)
    requires lo < |txids| == |mask| && Twins(hs, txids, mask, h, lo)
    ensures Under(h, lo, k, i, p) && TwinNode(hs, txids, mask, k, p)
    decreases h
  {
    var mid := lo + Pow(2, h - 1);
    if Twins(hs, txids, mask, h - 1, lo) {
      k, i, p := TwinsFound(hs, txids, mask, h - 1, lo);
      UnderChild(h, lo, k, i, p);
    } else if Twins(hs, txids, mask, h - 1, mid) {
      k, i, p := TwinsFound(hs, txids, mask, h - 1, mid);
      UnderChild(h, lo, k, i, p);
      i := Pow(2, h - 1 - k) + i;
    } else {
      k, i, p := h, 0, lo;
    }
  }

  lemma {:induction false} TwinsSeen(
    hs: Hasher, txids: seq<Hash>, mask: seq<bool>, h: nat, lo: nat, k: nat, i: nat, p: nat)
    requires lo < |txids| == |mask| && Under(h, lo, k, i, p) && TwinNode(hs, txids, mask, k, p)
    ensures Twins(hs, txids, mask, h, lo)
    decreases h
  {
    UnderCovers(h, lo, k, i, p);
    assert AnyMatch(mask, lo, lo + Pow(2, h));
    if k == h {
      assert Pow(2, 0) == 1;
    } else {
      UnderChild(h, lo, k, i, p);
      var mid, half := lo + Pow(2, h - 1), Pow(2, h - 1 - k);
      if i < half {
        TwinsSeen(hs, txids, mask, h - 1, lo, k, i, p);
      } else {
        UnderCovers(h - 1, mid, k, i - half, p);
        TwinsSeen(hs, txids, mask, h - 1, mid, k, i - half, p);
      }
    }
  }

  /** Place i of level k holds twins. */
  ghost predicate TwinAt(hs: Hasher, txids: seq<Hash>, mask: seq<bool>, k: nat, i: nat) {
    TwinNode(hs, txids, mask, k, i * Pow(2, k))
  }

  lemma RootCovers(n: nat, k: nat, i: nat)
    requires k > 0 && i * Pow(2, k) + Pow(2, k - 1) < n
    ensures Under(Height(n), 0, k, i, i * Pow(2, k))
  {
    var h := Height(n);
    if k > h {
      PowMonotone(2, h, k - 1);
      MulMonotone(Pow(2, k), 0, i);
      assert false;
    }
    PowAdd(2, h - k, k);
    PowPositive(2, k - 1);
    if i >= Pow(2, h - k) {
      MulMonotone(Pow(2, k), Pow(2, h - k), i);
    }
  }

  /** The encoder meets twins exactly if some node above a match has two children with the same hash. */
  lemma TwinsExact(hs: Hasher, txids: seq<Hash>, mask: seq<bool>)
    requires 0 < |txids| == |mask|
    ensures Twins(hs, txids, mask, Height(|txids|), 0) <==> exists k, i :: TwinAt(hs, txids, mask, k, i)
  {
    hide Twins;
    hide TwinNode;
    hide Pow;
    hide Height;
    var h := Height(|txids|);
    if Twins(hs, txids, mask, h, 0) {
      var k, i, p := TwinsFound(hs, txids, mask, h, 0);
      assert TwinAt(hs, txids, mask, k, i);
    }
    forall k: nat, i: nat | TwinAt(hs, txids, mask, k, i)
      ensures Twins(hs, txids, mask, h, 0)
    {
      TwinAtSeen(hs, txids, mask, k, i);
    }
  }

  lemma TwinAtSeen(hs: Hasher, txids: seq<Hash>, mask: seq<bool>, k: nat, i: nat)
    requires 0 < |txids| == |mask| && TwinAt(hs, txids, mask, k, i)
    ensures Twins(hs, txids, mask, Height(|txids|), 0)
  {
    hide Twins;
    hide CalcHash;
    hide Height;
    hide Under;
    RootCovers(|txids|, k, i);
    TwinsSeen(hs, txids, mask, Height(|txids|), 0, k, i, i * Pow(2, k));
  }

  /**
   A tree that shows the last transaction of a block of three twice, as one of four, has the block's
   root; the decoder reports failure.
   */
  lemma ForgedFourth(hs: Hasher, a: Hash, b: Hash, c: Hash)
    ensures var bits, hashes := [true, false, true, false, true], [hs.combine(a, b), c, c];
            && Height(3) == Height(4) == 2
            && Parse(hs, 4, bits, hashes, 2, 0).hash == CalcHash(hs, [a, b, c], 2, 0)
            && Parse(hs, 4, bits, hashes, 2, 0).matches == [(c, 3)]
            && Extract(hs, 4, bits, hashes, false).root == hs.zero
  {
    assert Pow(2, 0) == 1 && Pow(2, 1) == 2 && Pow(2, 2) == 4;
    var ab := hs.combine(a, b);
    assert CalcHash(hs, [a, b, c], 1, 0) == ab && CalcHash(hs, [a, b, c], 1, 2) == hs.combine(c, c);
    ParseLeaf(hs, 4, 1, 0, false, ab, [true, false, true], [c, c]);
    assert [false] + [true, false, true] == [false, true, false, true] && [ab] + [c, c] == [ab, c, c];
    ParseLeaf(hs, 4, 0, 2, false, c, [true], [c]);
    ParseLeaf(hs, 4, 0, 3, true, c, [], []);
    assert [false] + [true] == [false, true] && [c] + [c] == [c, c] && [true] + [] == [true] && [c] + [] == [c];
    assert [true, false, true, false, true][1..] == [false, true, false, true];
    var r := Parse(hs, 4, [true, false, true], [c, c], 1, 2);
    assert [true, false, true][1..] == [false, true];
    assert r == Parsed(hs.combine(c, c), [], [], [(c, 3)], true);
  }
}
