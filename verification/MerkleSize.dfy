/** How large an encoded partial Merkle tree is, against the limits its format promises. */
module MerkleSize {
  import opened Numbers
  import opened MerkleSpec

  // ---------- nodes with a single child ----------

  /** The number of nodes at a height, over n > 0 leaves. */
  ghost function Width(n: nat, h: nat): nat
    requires n > 0
  {
    PowPositive(2, h);
    (n - 1) / Pow(2, h) + 1
  }

  /** The first leaf below the last node at a height. */
  ghost function LastLo(n: nat, h: nat): nat
    requires n > 0
  {
    (Width(n, h) - 1) * Pow(2, h)
  }

  lemma LastLoBounds(n: nat, h: nat)
    requires n > 0
    ensures LastLo(n, h) < n <= LastLo(n, h) + Pow(2, h)
  {
    PowPositive(2, h);
    var p := Pow(2, h);
    assert n - 1 == (n - 1) / p * p + (n - 1) % p;
  }

  /** Going down the right edge: the last node has one child exactly when the level below has odd width. */
  lemma LastLoDown(n: nat, h: nat)
    requires n > 0 && h > 0
    ensures Width(n, h - 1) % 2 == 1 <==> LastLo(n, h) + Pow(2, h - 1) >= n
    ensures LastLo(n, h - 1) == LastLo(n, h) + (if Width(n, h - 1) % 2 == 1 then 0 else Pow(2, h - 1))
  {
    PowPositive(2, h - 1);
    var p := Pow(2, h - 1);
    var q, r := (n - 1) / (2 * p), (n - 1) % (2 * p);
    HalfStep(n - 1, p, q, r);
  }

  lemma HalfStep(x: nat, p: nat, q: nat, r: nat)
    requires p > 0 && q == x / (2 * p) && r == x % (2 * p)
    ensures x / p == if r < p then 2 * q else 2 * q + 1
    ensures q * (2 * p) == 2 * q * p && (2 * q + 1) * p == 2 * q * p + p && x == q * (2 * p) + r
  {
    assert x == q * (2 * p) + r;
    assert q * (2 * p) == 2 * q * p;
    if r < p {
      DivModUnique(x, p, 2 * q, r);
    } else {
      assert (2 * q + 1) * p == 2 * q * p + p;
      DivModUnique(x, p, 2 * q + 1, r - p);
    }
  }

  /** The heights up to h at which the last node has a single child and a selected leaf below it, counted. */
  ghost function LonelyHeights(n: nat, mask: seq<bool>, h: nat): nat
    requires n > 0
  {
    if h == 0 then 0
    else
      (if Width(n, h - 1) % 2 == 1 && AnyMatch(mask, LastLo(n, h), n) then 1 else 0) + LonelyHeights(n, mask, h - 1)
  }

  lemma {:induction false} LonelyNone(n: nat, mask: seq<bool>, h: nat)
    requires n > 0 && !AnyMatch(mask, LastLo(n, h), n)
    ensures LonelyHeights(n, mask, h) == 0
  {
    if h > 0 {
      LastLoDown(n, h);
      PowPositive(2, h - 1);
      LonelyNone(n, mask, h - 1);
    }
  }

  lemma SameMatches(n: nat, mask: seq<bool>, lo: nat, hi: nat)
    requires |mask| == n <= hi
    ensures AnyMatch(mask, lo, hi) <==> AnyMatch(mask, lo, n)
  {
  }

  /** The single-child nodes the encoder visits are counted by heights. */
  lemma {:induction false} LoneByHeight(n: nat, mask: seq<bool>, h: nat)
    requires 0 < n == |mask|
    ensures LoneParents(n, mask, h, LastLo(n, h)) == LonelyHeights(n, mask, h)
    decreases h
  {
    hide AnyMatch;
    hide LastLo;
    hide Width;
    hide Pow;
    hide LoneParents;
    hide LonelyHeights;
    var lo := LastLo(n, h);
    LastLoBounds(n, h);
    SameMatches(n, mask, lo, lo + Pow(2, h));
    LonelyUnfold(n, mask, h, lo);
    if h > 0 && AnyMatch(mask, lo, n) {
      LastLoDown(n, h);
      LoneByHeight(n, mask, h - 1);
      LoneParentsBound(n, mask, h - 1, lo);
    }
  }

  lemma LonelyUnfold(n: nat, mask: seq<bool>, h: nat, lo: nat)
    requires n > 0 && lo == LastLo(n, h)
    ensures !AnyMatch(mask, lo, n) ==> LonelyHeights(n, mask, h) == 0
    ensures h == 0 || !AnyMatch(mask, lo, lo + Pow(2, h)) ==> LoneParents(n, mask, h, lo) == 0
    ensures h == 0 ==> LonelyHeights(n, mask, h) == 0
    ensures h > 0 && AnyMatch(mask, lo, lo + Pow(2, h)) ==>
              LoneParents(n, mask, h, lo)
              == if lo + Pow(2, h - 1) < n
                 then LoneParents(n, mask, h - 1, lo) + LoneParents(n, mask, h - 1, lo + Pow(2, h - 1))
                 else 1 + LoneParents(n, mask, h - 1, lo)
    ensures h > 0 && AnyMatch(mask, lo, n) ==>
              LonelyHeights(n, mask, h) == (if Width(n, h - 1) % 2 == 1 then 1 else 0) + LonelyHeights(n, mask, h - 1)
  {
    hide AnyMatch;
    if !AnyMatch(mask, lo, n) { LonelyNone(n, mask, h); }
  }

  /** The last node at the height of the tree is the root. */
  lemma RootIsLast(n: nat)
    requires n > 0
    ensures LastLo(n, Height(n)) == 0
  {
    DivModUnique(n - 1, Pow(2, Height(n)), 0, n - 1);
  }

  /** The first leaf below the highest single-child node, at heights up to h; n if there is none. */
  ghost function Edge(n: nat, h: nat): nat
    requires n > 0
  {
    if h == 0 then n else if Width(n, h - 1) % 2 == 1 then LastLo(n, h) else Edge(n, h - 1)
  }

  lemma {:induction false} LonelyEdge(n: nat, mask: seq<bool>, h: nat)
    requires 0 < n == |mask|
    ensures LonelyHeights(n, mask, h) == 0 <==> !AnyMatch(mask, Edge(n, h), n)
  {
    if h > 0 {
      LastLoDown(n, h);
      if Width(n, h - 1) % 2 == 1 {
        if !AnyMatch(mask, LastLo(n, h), n) {
          LonelyNone(n, mask, h);
        }
      } else {
        LonelyEdge(n, mask, h - 1);
      }
    }
  }

  /** The number of bits, exactly. */
  lemma BitsExact(hs: Hasher, txids: seq<Hash>, mask: seq<bool>)
    requires 0 < |txids| == |mask|
    ensures var n := |txids|;
            var e := Build(hs, txids, mask, Height(n), 0);
            |e.bits| == 2 * |e.hashes| - 1 + LonelyHeights(n, mask, Height(n)) && 1 <= |e.hashes|
  {
    var n := |txids|;
    BuildSize(hs, txids, mask, Height(n), 0);
    RootIsLast(n);
    LoneByHeight(n, mask, Height(n));
  }

  /** At most 2N - 1 bits exactly when no selected id is at or past the edge. */
  lemma TwoNMinusOneBits(hs: Hasher, txids: seq<Hash>, mask: seq<bool>)
    requires 0 < |txids| == |mask|
    ensures var n := |txids|;
            var e := Build(hs, txids, mask, Height(n), 0);
            |e.bits| <= 2 * |e.hashes| - 1 <==> !AnyMatch(mask, Edge(n, Height(n)), n)
  {
    BitsExact(hs, txids, mask);
    LonelyEdge(|txids|, mask, Height(|txids|));
  }

  /** Three ids with only the last selected: two hashes and four bits. */
  lemma ThreeIdsLastSelected(hs: Hasher, txids: seq<Hash>)
    requires |txids| == 3
    ensures var e := Build(hs, txids, [false, false, true], Height(3), 0);
            |e.hashes| == 2 && |e.bits| == 4
  {
    var mask := [false, false, true];
    assert Pow(2, 0) == 1 && Pow(2, 1) == 2 && Pow(2, 2) == 4;
    assert Height(3) == 2;
    assert mask[2];
    assert !AnyMatch(mask, 0, 0 + Pow(2, 1));
    assert |Build(hs, txids, mask, 1, 2).bits| == 2 && |Build(hs, txids, mask, 1, 2).hashes| == 1;
    assert |Build(hs, txids, mask, 1, 0).bits| == 1 && |Build(hs, txids, mask, 1, 0).hashes| == 1;
  }

  // ---------- the size on the wire ----------

  /** Bytes of a length prefix. */
  function GetSizeOfCompactSize(n: nat): nat {
    if n < 253 then 1 else if n <= 0xFFFF then 3 else if n <= 0xFFFF_FFFF then 5 else 9
  }

  /** Number of transactions, hashes and packed bits, the latter two with length prefixes. */
  function WireSize(e: Encoding): nat {
    var bytes := (|e.bits| + 7) / 8;
    4 + GetSizeOfCompactSize(|e.hashes|) + 32 * |e.hashes| + GetSizeOfCompactSize(bytes) + bytes
  }

  /** 10 + 32.25 N, rounded up. */
  function PromisedSize(n: nat): nat {
    10 + 32 * n + (n + 3) / 4
  }

  /** The bits beyond 2N - 1 for which the promise has room. */
  function Room(n: nat): nat {
    1 + 2 * ((3 * n) % 4) + 8 * (if n < 253 then 4 else if n <= 1000 then 2 else if n <= 1004 then 1 else 0)
  }

  lemma RoomExact(n: nat, extra: nat, bytes: nat)
    requires n > 0 && bytes == (2 * n - 1 + extra + 7) / 8
    ensures GetSizeOfCompactSize(n) + GetSizeOfCompactSize(bytes) + bytes <= 6 + (n + 3) / 4
            <==> n <= 0xFFFF && extra <= Room(n)
  {
  }

  /** The promised size is kept exactly for at most 65535 hashes with room for the bits of lonely nodes. */
  lemma SizePromise(hs: Hasher, txids: seq<Hash>, mask: seq<bool>)
    requires 0 < |txids| == |mask|
    ensures var n := |txids|;
            var e := Build(hs, txids, mask, Height(n), 0);
            WireSize(e) <= PromisedSize(|e.hashes|)
            <==> |e.hashes| <= 0xFFFF && LonelyHeights(n, mask, Height(n)) <= Room(|e.hashes|)
  {
    var n := |txids|;
    BitsExact(hs, txids, mask);
    var e := Build(hs, txids, mask, Height(n), 0);
    RoomExact(|e.hashes|, LonelyHeights(n, mask, Height(n)), (|e.bits| + 7) / 8);
  }

  /** So it is kept by every tree of fewer than 253 hashes, and never missed by more than 8 bytes. */
  lemma SizeLimit(hs: Hasher, txids: seq<Hash>, mask: seq<bool>)
    requires 0 < |txids| == |mask| && |txids| < Pow(2, 32)
    ensures var e := Build(hs, txids, mask, Height(|txids|), 0);
            && (|e.hashes| < 253 ==> WireSize(e) <= PromisedSize(|e.hashes|))
            && WireSize(e) <= PromisedSize(|e.hashes|) + 8
  {
    hide *;
    var h := Height(|txids|);
    HeightBound(|txids|);
    LonelyBound(|txids|, mask, h);
    BitsExact(hs, txids, mask);
    EncodingBounds(hs, txids, mask);
    BigPower();
    WithinEight(Build(hs, txids, mask, h, 0), LonelyHeights(|txids|, mask, h));
  }

  lemma HeightBound(n: nat)
    requires n <= Pow(2, 32)
    ensures Height(n) <= 32
  {
  }

  lemma WithinEight(e: Encoding, extra: nat)
    requires 1 <= |e.hashes| < 0x1_0000_0000 && |e.bits| == 2 * |e.hashes| - 1 + extra && extra <= 32
    ensures |e.hashes| < 253 ==> WireSize(e) <= PromisedSize(|e.hashes|)
    ensures WireSize(e) <= PromisedSize(|e.hashes|) + 8
  {
    RoomExact(|e.hashes|, extra, (|e.bits| + 7) / 8);
  }

  lemma BigPower()
    ensures Pow(2, 32) == 0x1_0000_0000
  {
    assert Pow(2, 8) == 256;
    PowAdd(2, 8, 8);
    PowAdd(2, 16, 16);
  }

  lemma {:induction false} LonelyBound(n: nat, mask: seq<bool>, h: nat)
    requires n > 0
    ensures LonelyHeights(n, mask, h) <= h
  {
    if h > 0 { LonelyBound(n, mask, h - 1); }
  }

  lemma MatchedHere(mask: seq<bool>, h: nat, lo: nat)
    requires lo < |mask| && mask[lo]
    ensures AnyMatch(mask, lo, lo + Pow(2, h))
  {
    PowPositive(2, h);
  }

  lemma EndOne(n: nat, lo: nat)
    requires lo < n
    ensures End(n, 0, lo) == lo + 1
  {
  }

  /** With everything selected every id is a hash of its own. */
  lemma {:induction false} AllSelected(hs: Hasher, txids: seq<Hash>, mask: seq<bool>, h: nat, lo: nat)
    requires lo < |txids| == |mask| && forall i :: 0 <= i < |mask| ==> mask[i]
    ensures |Build(hs, txids, mask, h, lo).hashes| == End(|txids|, h, lo) - lo
    decreases h
  {
    hide Build;
    hide AnyMatch;
    hide Pow;
    hide End;
    MatchedHere(mask, h, lo);
    BuildSplit(hs, txids, mask, h, lo);
    if h == 0 {
      EndOne(|txids|, lo);
    } else {
      EndSplit(|txids|, h, lo);
      AllSelected(hs, txids, mask, h - 1, lo);
      if lo + Pow(2, h - 1) < |txids| {
        AllSelected(hs, txids, mask, h - 1, lo + Pow(2, h - 1));
      }
    }
  }

  /** 1012 ids, all selected, take a byte more than promised; so do all selections of more than 65535. */
  lemma AllSelectedTooLarge(hs: Hasher, txids: seq<Hash>, mask: seq<bool>)
    requires |txids| == |mask| && forall i :: 0 <= i < |mask| ==> mask[i]
    requires |txids| == 1012 || |txids| > 0xFFFF
    ensures var e := Build(hs, txids, mask, Height(|txids|), 0);
            WireSize(e) > PromisedSize(|e.hashes|)
  {
    var n := |txids|;
    SizePromise(hs, txids, mask);
    AllSelected(hs, txids, mask, Height(n), 0);
    if n == 1012 {
      LonelyThousand(mask);
    }
  }

  lemma LonelyThousand(mask: seq<bool>)
    requires |mask| == 1012 && forall i :: 0 <= i < |mask| ==> mask[i]
    ensures Height(1012) == 10 && LonelyHeights(1012, mask, 10) >= 2
  {
    assert Pow(2, 9) == 512 && Pow(2, 10) == 1024;
    assert Pow(2, 2) == 4 && Pow(2, 3) == 8 && Pow(2, 4) == 16;
    assert Width(1012, 2) == 253 && Width(1012, 3) == 127;
    assert mask[1011];
    LonelyGrows(1012, mask, 4, 10);
  }

  lemma {:induction false} LonelyGrows(n: nat, mask: seq<bool>, g: nat, h: nat)
    requires n > 0 && g <= h
    ensures LonelyHeights(n, mask, g) <= LonelyHeights(n, mask, h)
  {
    if g < h { LonelyGrows(n, mask, g, h - 1); }
  }
}
