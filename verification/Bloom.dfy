/**
 Bloom filters over a bit field that inserts update in place, and the rolling filter made of two of
 them. The hash function is a parameter; so are the sizes that setup computes in floating point.
 */
module Bloom {
  import opened Numbers
  import opened Bits

  type Key(==, !new, 0)

  const HASH_STEP: nat := 0xFBA4C795
  const WORD: nat := 0x1_0000_0000

  /** The seed of hash function n. */
  function Seed(n: nat, nTweak: nat): (s: nat)
    ensures s < WORD
  {
    (n * HASH_STEP + nTweak) % WORD
  }

  /** From the tweak on, seeds advance by a fixed step modulo 2^32. */
  lemma SeedSteps(n: nat, nTweak: nat)
    ensures Seed(0, nTweak) == nTweak % 0x1_0000_0000
    ensures Seed(n + 1, nTweak) == (Seed(n, nTweak) + 4_221_880_213) % 0x1_0000_0000
  {
    var x := n * HASH_STEP + nTweak;
    var y := x % WORD + HASH_STEP;
    DivModUnique(x + HASH_STEP, WORD, x / WORD + y / WORD, y % WORD);
  }

  /** The step is odd: only multiples of 2^32 steps lead back. */
  lemma OddStep(d: int, q: int)
    requires d * HASH_STEP == q * WORD
    ensures d % WORD == 0
  {
    // the step times its inverse is one more than a multiple of 2^32
    assert HASH_STEP * 0x75604BBD == 1 + 0x7360F775 * WORD;
    assert d == (q * 0x75604BBD - d * 0x7360F775) * WORD;
  }

  /** No two hash functions share a seed. */
  lemma SeedsDiffer(n: nat, m: nat, nTweak: nat)
    requires n < m < WORD
    ensures Seed(n, nTweak) != Seed(m, nTweak)
  {
    var q := (m * HASH_STEP + nTweak) / WORD - (n * HASH_STEP + nTweak) / WORD;
    if (m - n) * HASH_STEP == q * WORD {
      OddStep(m - n, q);
    }
  }

  class BloomFilter {
    const murmur: (nat, Key) -> nat
    const vData: array<byte>
    const nHashFuncs: nat
    var isFull: bool
    var isEmpty: bool
    var nTweak: nat
    /** The keys inserted since the filter was last cleared. */
    ghost var inserted: set<Key>

    function Hash(n: nat, key: Key): (i: nat)
      requires vData.Length > 0
      reads `nTweak
      ensures i < vData.Length * 8
    {
      murmur(Seed(n, nTweak), key) % (vData.Length * 8)
    }

    /** The hash differs from what the hash function gives by a multiple of the number of bits. */
    lemma HashRemainder(n: nat, key: Key)
      requires vData.Length > 0
      ensures exists q: int :: murmur(Seed(n, nTweak), key) == q * (vData.Length * 8) + Hash(n, key)
    {
      var m := vData.Length * 8;
      var x := murmur(Seed(n, nTweak), key);
      assert x == x / m * m + Hash(n, key);
    }

    predicate BitAt(i: nat)
      requires i < vData.Length * 8
      reads vData
    {
      TestBit(vData[i / 8], i % 8)
    }

    /** One of the first k hash functions leads to bit j. */
    ghost predicate Sets(key: Key, k: nat, j: nat)
      requires vData.Length > 0
      reads `nTweak
    {
      exists n: nat :: n < k && Hash(n, key) == j
    }

    /** All bits of a key are set. */
    ghost predicate Marked(key: Key)
      reads `nTweak, vData
    {
      vData.Length > 0 ==> forall n: nat :: n < nHashFuncs ==> BitAt(Hash(n, key))
    }

    /** What the filter answers for a key. */
    ghost predicate Found(key: Key)
      reads this, vData
    {
      isFull || (!isEmpty && Marked(key))
    }

    ghost predicate Valid()
      reads this, vData
    {
      && (forall key :: key in inserted ==> Marked(key))
      && (isFull ==> forall i :: 0 <= i < vData.Length ==> vData[i] == 0xff)
      && (vData.Length == 0 ==> isFull)
      && (isEmpty && !isFull ==> inserted == {})
    }

    /** The bits are those of the inserted keys and no others, and the flags tell whether there are keys or bits. */
    ghost predicate Exact()
      reads this, vData
    {
      && (forall j: nat :: j < vData.Length * 8 ==> (BitAt(j) <==> SetByKey(j)))
      && (!isFull ==> (isEmpty <==> inserted == {}))
      && (vData.Length == 0 ==> isFull)
    }

    ghost predicate SetByKey(j: nat)
      requires j < vData.Length * 8
      reads this
    {
      exists key :: key in inserted && Sets(key, nHashFuncs, j)
    }

    /** All the bits of a key are bits of inserted keys. */
    ghost predicate Covered(key: Key)
      reads this
    {
      vData.Length > 0 ==> forall n: nat :: n < nHashFuncs ==> SetByKey(Hash(n, key))
    }

    lemma FoundExact(key: Key)
      requires Exact()
      ensures Found(key) <==> isFull || (inserted != {} && Covered(key))
    {
      if vData.Length > 0 {
        forall n: nat | n < nHashFuncs
          ensures BitAt(Hash(n, key)) <==> SetByKey(Hash(n, key))
        {
        }
      }
    }

    constructor (murmur: (nat, Key) -> nat, size: nat, nHashFuncs: nat, nTweak: nat)
      ensures Exact()
      ensures Valid() && inserted == {} && fresh(vData)
      ensures this.murmur == murmur && this.nHashFuncs == nHashFuncs && this.nTweak == nTweak && vData.Length == size
      ensures isEmpty && forall i :: 0 <= i < size ==> vData[i] == 0
    {
      this.murmur, this.nHashFuncs, this.nTweak := murmur, nHashFuncs, nTweak;
      vData := new byte[size](_ => 0);
      isFull, isEmpty, inserted := size == 0, true, {};
      new;
      ClearBits();
    }

    lemma ClearBits()
      requires forall i :: 0 <= i < vData.Length ==> vData[i] == 0
      ensures forall j: nat :: j < vData.Length * 8 ==> !BitAt(j)
    {
      forall j: nat | j < vData.Length * 8
        ensures !BitAt(j)
      {
        ZeroHasNoBits(j % 8);
      }
    }

    method Insert(key: Key)
      requires Valid()
      modifies this, vData
      ensures Valid() && inserted == old(inserted) + {key} && nTweak == old(nTweak)
      ensures !isEmpty || isFull
      ensures forall j: nat :: j < vData.Length * 8 ==> (BitAt(j) <==> old(BitAt(j)) || Sets(key, nHashFuncs, j))
      ensures old(Exact()) ==> Exact()
    {
      ghost var before := inserted;
      if isFull {
        FullBits();
        inserted := inserted + {key};
      } else {
        SetAll(key);
        isEmpty := false;
        inserted := inserted + {key};
        assert forall n: nat :: n < nHashFuncs ==> Sets(key, nHashFuncs, Hash(n, key));
      }
      OneMoreKey(before, key);
    }

    /** With one more key the bits set by keys are those before and those of the key. */
    lemma OneMoreKey(before: set<Key>, key: Key)
      requires inserted == before + {key}
      ensures forall j: nat :: j < vData.Length * 8 ==>
                (SetByKey(j) <==> (exists k :: k in before && Sets(k, nHashFuncs, j)) || Sets(key, nHashFuncs, j))
    {
    }

    /** Set the bits of a key. */
    method SetAll(key: Key)
      requires vData.Length > 0
      modifies vData
      ensures forall j: nat :: j < vData.Length * 8 ==> (BitAt(j) <==> old(BitAt(j)) || Sets(key, nHashFuncs, j))
    {
      hide BitAt;
      hide Hash;
      hide Sets;
      forall j: nat
        ensures !Sets(key, 0, j)
      {
        SetsNone(key, j);
      }
      for i := 0 to nHashFuncs
        invariant forall j: nat :: j < vData.Length * 8 ==> (BitAt(j) <==> old(BitAt(j)) || Sets(key, i, j))
      {
        label before:
        var nIndex := Hash(i, key);
        SetOne(nIndex);
        forall j: nat | j < vData.Length * 8
          ensures BitAt(j) <==> old(BitAt(j)) || Sets(key, i + 1, j)
        {
          SetsMore(key, i, j);
          assert old@before(Sets(key, i, j)) == Sets(key, i, j);
        }
      }
    }

    lemma SetsNone(key: Key, j: nat)
      requires vData.Length > 0
      ensures !Sets(key, 0, j)
    {
    }

    lemma SetsMore(key: Key, k: nat, j: nat)
      requires vData.Length > 0
      ensures Sets(key, k + 1, j) <==> Sets(key, k, j) || j == Hash(k, key)
    {
    }

    /** Set one bit. */
    method SetOne(i: nat)
      requires i < vData.Length * 8
      modifies vData
      ensures forall j: nat :: j < vData.Length * 8 ==> (BitAt(j) <==> j == i || old(BitAt(j)))
    {
      vData[i / 8] := SetBit(vData[i / 8], i % 8);
      forall j: nat | j < vData.Length * 8
        ensures BitAt(j) <==> j == i || old(BitAt(j))
      {
        if j / 8 == i / 8 {
          SetBitTests(old(vData[i / 8]), i % 8, j % 8);
          assert j == i <==> j % 8 == i % 8;
        }
      }
    }

    lemma FullBits()
      requires forall i :: 0 <= i < vData.Length ==> vData[i] == 0xff
      ensures forall j: nat :: j < vData.Length * 8 ==> BitAt(j)
    {
      forall j: nat | j < vData.Length * 8
        ensures BitAt(j)
      {
        MaskValue(j % 8);
      }
    }

    lemma EmptyNotFull(empty: bool)
      requires empty <==> forall j :: 0 <= j < vData.Length ==> vData[j] == 0
      ensures empty <==> !exists i :: 0 <= i < vData.Length && vData[i] != 0
      ensures empty && vData.Length > 0 ==> vData[0] != 0xff
    {
    }

    /** A key leaves a mark wherever there are hash functions. */
    lemma SomeBit()
      requires Valid() && inserted != {} && nHashFuncs > 0 && vData.Length > 0
      ensures exists i :: 0 <= i < vData.Length && vData[i] != 0
    {
      var key :| key in inserted;
      var i := Hash(0, key);
      assert BitAt(i);
      ZeroHasNoBits(i % 8);
      assert vData[i / 8] != 0;
    }

    /** A key that was inserted is always found, as long as the filter is in order. */
    method Contains(key: Key) returns (r: bool)
      requires vData.Length == 0 ==> isFull
      ensures r <==> Found(key)
      ensures Valid() && key in inserted ==> r
      ensures Exact() ==> (r <==> isFull || (inserted != {} && Covered(key)))
    {
      if Exact() { FoundExact(key); }
      if isFull { return true; }
      if isEmpty { return false; }
      for i := 0 to nHashFuncs
        invariant forall n: nat :: n < i ==> BitAt(Hash(n, key))
      {
        var nIndex := Hash(i, key);
        if !BitAt(nIndex) { return false; }
      }
      r := true;
    }

    method Clear()
      modifies this, vData
      ensures Valid() && Exact() && inserted == {} && nTweak == old(nTweak)
      ensures isEmpty && isFull == (vData.Length == 0) && forall i :: 0 <= i < vData.Length ==> vData[i] == 0
    {
      for i := 0 to vData.Length
        modifies vData
        invariant forall j :: 0 <= j < i ==> vData[j] == 0
      {
        vData[i] := 0;
      }
      isFull, isEmpty, inserted := vData.Length == 0, true, {};
      ClearBits();
    }

    method Reset(nNewTweak: nat)
      modifies this, vData
      ensures Valid() && Exact() && inserted == {} && nTweak == nNewTweak
      ensures isEmpty && isFull == (vData.Length == 0) && forall i :: 0 <= i < vData.Length ==> vData[i] == 0
    {
      Clear();
      nTweak := nNewTweak;
    }

    /** There are keys, but no bits that tell of them. */
    ghost predicate Traceless()
      reads this, vData
    {
      inserted != {} && nHashFuncs == 0 && vData.Length > 0 && forall i :: 0 <= i < vData.Length ==> vData[i] == 0
    }

    /**
     Work the flags out anew, as is done after reading a filter. All keys are still found unless the
     filter has no hash functions and all its bits are clear, so that it looks empty; then none is.
     */
    method UpdateEmptyFull()
      requires Valid()
      modifies `isFull, `isEmpty
      ensures isFull <==> forall i :: 0 <= i < vData.Length ==> vData[i] == 0xff
      ensures isEmpty <==> forall i :: 0 <= i < vData.Length ==> vData[i] == 0
      ensures (forall key :: key in inserted ==> Found(key)) <==> !Traceless()
      ensures Traceless() ==> forall key :: !Found(key)
      ensures Valid() <==> !Traceless()
    {
      if inserted != {} && nHashFuncs > 0 && vData.Length > 0 { SomeBit(); }
      var full, empty := true, true;
      for i := 0 to vData.Length
        invariant full <==> forall j :: 0 <= j < i ==> vData[j] == 0xff
        invariant empty <==> forall j :: 0 <= j < i ==> vData[j] == 0
      {
        full := full && vData[i] == 0xff;
        empty := empty && vData[i] == 0;
      }
      EmptyNotFull(empty);
      isFull := full;
      isEmpty := empty;
    }
  }

  /** One byte, no hash functions, one key: the key is lost when the flags are worked out anew. */
  method KeyForgotten(murmur: (nat, Key) -> nat, nTweak: nat, key: Key) returns (before: bool, after: bool)
    ensures before && !after
  {
    var filter := new BloomFilter(murmur, 1, 0, nTweak);
    forall k: nat | k < 8
      ensures !filter.BitAt(k)
    {
      ZeroHasNoBits(k);
    }
    filter.Insert(key);
    forall k: nat | k < 8
      ensures TestBit(filter.vData[0], k) == TestBit(0, k)
    {
      ZeroHasNoBits(k);
      assert !filter.BitAt(k);
    }
    SameBits(filter.vData[0], 0);
    before := filter.Contains(key);
    filter.UpdateEmptyFull();
    after := filter.Contains(key);
  }

  /** The keys inserted last, at most n of them. */
  ghost function Recent(history: seq<Key>, n: nat): set<Key> {
    set i | 0 <= i < |history| && |history| - n <= i :: history[i]
  }

  lemma RecentMore(history: seq<Key>, n: nat, key: Key)
    ensures Recent(history + [key], n + 1) == Recent(history, n) + {key}
  {
    var h := history + [key];
    forall k
      ensures k in Recent(h, n + 1) <==> k in Recent(history, n) + {key}
    {
      if k in Recent(history, n) {
        var i :| 0 <= i < |history| && |history| - n <= i && history[i] == k;
        assert h[i] == k;
      }
      if k == key { assert h[|history|] == k; }
      if k in Recent(h, n + 1) {
        var i :| 0 <= i < |h| && |h| - (n + 1) <= i && h[i] == k;
        if i < |history| { assert history[i] == k; }
      }
    }
  }

  lemma RecentSmaller(history: seq<Key>, n: nat, m: nat)
    requires n <= m
    ensures Recent(history, n) <= Recent(history, m)
  {
  }

  /** Two filters, cleared in turn every nBloomSize / 2 inserts. */
  class RollingBloomFilter {
    const b1: BloomFilter
    const b2: BloomFilter
    const nBloomSize: nat
    var nInsertions: nat
    ghost var history: seq<Key>

    /** How many of the latest keys each filter holds. */
    ghost function Held1(): nat
      reads this
    {
      if nBloomSize == 0 then |history| else if nInsertions == 0 then nBloomSize else nInsertions
    }

    ghost function Held2(): nat
      reads this
    {
      if nBloomSize == 0 then |history|
      else if nInsertions <= nBloomSize / 2 then nInsertions + nBloomSize / 2
      else nInsertions - nBloomSize / 2
    }

    /** The filter that is asked. */
    ghost function Asked(): BloomFilter
      reads `nInsertions
    {
      if nInsertions < nBloomSize / 2 then b2 else b1
    }

    ghost function Held(): nat
      reads this
    {
      if nInsertions < nBloomSize / 2 then Held2() else Held1()
    }

    ghost predicate Valid()
      reads this, b1, b2, b1.vData, b2.vData
    {
      && b1 != b2 && b1.vData != b2.vData && b1.Valid() && b2.Valid() && b1.Exact() && b2.Exact()
      && nBloomSize % 2 == 0 && (if nBloomSize == 0 then nInsertions == |history| else nInsertions < nBloomSize)
      && b1.inserted == Recent(history, Held1()) && b2.inserted == Recent(history, Held2())
    }

    constructor (murmur: (nat, Key) -> nat, nElements: nat, size: nat, nHashFuncs: nat, nTweak: nat)
      ensures Valid() && history == [] && nBloomSize == nElements * 2
      ensures fresh(b1) && fresh(b2) && fresh(b1.vData) && fresh(b2.vData)
    {
      b1 := new BloomFilter(murmur, size, nHashFuncs, nTweak);
      b2 := new BloomFilter(murmur, size, nHashFuncs, nTweak);
      nBloomSize, nInsertions, history := nElements * 2, 0, [];
    }

    method Insert(key: Key)
      requires Valid()
      modifies this, b1, b2, b1.vData, b2.vData
      ensures Valid() && history == old(history) + [key]
    {
      hide BloomFilter.Valid;
      hide BloomFilter.Exact;
      hide Recent;
      if nInsertions == 0 {
        b1.Clear();
      } else if nInsertions == nBloomSize / 2 {
        b2.Clear();
      }
      b1.Insert(key);
      b2.Insert(key);
      RecentMore(history, if nInsertions == 0 then 0 else Held1(), key);
      RecentMore(history, if nInsertions == nBloomSize / 2 then 0 else Held2(), key);
      RecentNone(history);
      nInsertions := nInsertions + 1;
      if nInsertions == nBloomSize {
        nInsertions := 0;
      }
      history := history + [key];
    }

    /**
     Each of the last nBloomSize / 2 keys is found. The answer comes from exactly the last Held() keys, at
     most nBloomSize of them: older ones have left no trace.
     */
    method Contains(key: Key) returns (r: bool)
      requires Valid()
      ensures key in Recent(history, nBloomSize / 2) ==> r
      ensures Asked().inserted == Recent(history, Held())
      ensures nBloomSize > 0 ==> nBloomSize / 2 <= Held() <= nBloomSize
      ensures r <==> Asked().isFull || (Recent(history, Held()) != {} && Asked().Covered(key))
    {
      if nInsertions < nBloomSize / 2 {
        RecentSmaller(history, nBloomSize / 2, Held2());
        r := b2.Contains(key);
      } else {
        RecentSmaller(history, nBloomSize / 2, Held1());
        r := b1.Contains(key);
      }
    }

    method Reset(nNewTweak: nat)
      requires Valid()
      modifies this, b1, b2, b1.vData, b2.vData
      ensures Valid() && history == []
    {
      b1.Reset(nNewTweak);
      b2.Reset(nNewTweak);
      nInsertions, history := 0, [];
    }
  }

  lemma RecentNone(history: seq<Key>)
    ensures Recent(history, 0) == {}
  {
  }
}
