/** The manager's file as the stream of values that is written and read back. */
module AddrStore {
  import opened Options
  import opened AddrBook
  import opened AddrView
  import opened AddrFile
  import opened AddrSave
  import opened AddrLimits

  datatype Token = Byte(b: nat) | KeyOf(key: Key) | Count(n: nat) | Index(i: int) | Info(sv: Saved)

  const KEY_SIZE := 32
  const BIT_30 := 0x4000_0000

  /** Flip bit 30. */
  function Xor30(x: nat): (r: nat)
    ensures r != x
    ensures x / BIT_30 % 2 == 0 ==> r == x + BIT_30
    ensures x / BIT_30 % 2 == 1 ==> r + BIT_30 == x
  {
    if x / BIT_30 % 2 == 1 then x - BIT_30 else x + BIT_30
  }

  lemma XorTwice(x: nat)
    ensures Xor30(Xor30(x)) == x
  {
  }

  // ---------- writing ----------

  function Infos(svs: seq<Saved>): seq<Token> {
    seq(|svs|, i requires 0 <= i < |svs| => Info(svs[i]))
  }

  function Indices(idxs: seq<int>): seq<Token> {
    seq(|idxs|, i requires 0 <= i < |idxs| => Index(idxs[i]))
  }

  function BucketTokens(buckets: seq<seq<int>>): seq<Token> {
    if buckets == [] then []
    else BucketTokens(buckets[..|buckets| - 1]) + ([Count(|buckets[|buckets| - 1]|)] + Indices(buckets[|buckets| - 1]))
  }

  /** Version 0 wrote the number of buckets as it is. */
  function BucketCount(version: nat, n: nat): nat {
    if version != 0 then Xor30(n) else n
  }

  function Header(f: PeersFile): seq<Token> {
    [Byte(f.nVersion), Byte(KEY_SIZE), KeyOf(f.nKey), Count(|f.news|), Count(|f.trieds|),
     Count(BucketCount(f.nVersion, f.nUBuckets))]
  }

  function Write(f: PeersFile): seq<Token> {
    Header(f) + (Infos(f.news) + (Infos(f.trieds) + BucketTokens(f.buckets)))
  }

  // ---------- reading ----------

  predicate HasInfos(s: seq<Token>, n: nat) {
    n <= |s| && forall i :: 0 <= i < n ==> s[i].Info?
  }

  function TakeInfos(s: seq<Token>, n: nat): seq<Saved>
    requires HasInfos(s, n)
  {
    seq(n, i requires 0 <= i < n => s[i].sv)
  }

  predicate HasIndices(s: seq<Token>, n: nat) {
    n <= |s| && forall i :: 0 <= i < n ==> s[i].Index?
  }

  function TakeIndices(s: seq<Token>, n: nat): seq<int>
    requires HasIndices(s, n)
  {
    seq(n, i requires 0 <= i < n => s[i].i)
  }

  predicate HasBucket(s: seq<Token>) {
    s != [] && s[0].Count? && HasIndices(s[1..], s[0].n)
  }

  /** Read n buckets. */
  function ParseBuckets(s: seq<Token>, n: nat): Option<seq<seq<int>>> {
    if n == 0 then Some([])
    else if !HasBucket(s) then None
    else
      match ParseBuckets(s[1 + s[0].n..], n - 1)
      case None => None
      case Some(rest) => Some([TakeIndices(s[1..], s[0].n)] + rest)
  }

  predicate HasHeader(s: seq<Token>) {
    && |s| >= 6 && s[0].Byte? && s[1].Byte? && s[1].b == KEY_SIZE && s[2].KeyOf?
    && s[3].Count? && s[4].Count? && s[5].Count?
    && s[3].n <= NEW_BUCKET_COUNT * BUCKET_SIZE && s[4].n <= TRIED_BUCKET_COUNT * BUCKET_SIZE
  }

  function Parse(s: seq<Token>): Option<PeersFile> {
    if !HasHeader(s) || !HasInfos(s[6..], s[3].n + s[4].n) then None
    else
      var nNew, nTried, nUBuckets := s[3].n, s[4].n, BucketCount(s[0].b, s[5].n);
      match ParseBuckets(s[6 + nNew + nTried..], nUBuckets)
      case None => None
      case Some(buckets) =>
        Some(PeersFile(s[0].b, s[2].key, nUBuckets, TakeInfos(s[6..], nNew), TakeInfos(s[6 + nNew..], nTried), buckets))
  }

  // ---------- reading what was written ----------

  lemma IndicesBack(idxs: seq<int>, rest: seq<Token>)
    ensures HasIndices(Indices(idxs) + rest, |idxs|) && TakeIndices(Indices(idxs) + rest, |idxs|) == idxs
  {
  }

  lemma {:induction false} BucketTokensFront(buckets: seq<seq<int>>)
    requires buckets != []
    ensures BucketTokens(buckets) == [Count(|buckets[0]|)] + (Indices(buckets[0]) + BucketTokens(buckets[1..]))
  {
    var n := |buckets| - 1;
    if n > 0 {
      BucketTokensFront(buckets[..n]);
      assert buckets[1..][..n - 1] == buckets[..n][1..];
      var last := [Count(|buckets[n]|)] + Indices(buckets[n]);
      assert BucketTokens(buckets[1..]) == BucketTokens(buckets[..n][1..]) + last;
    }
  }

  lemma IndicesLength(idxs: seq<int>)
    ensures |Indices(idxs)| == |idxs|
  {
  }

  lemma Cut<T>(x: T, y: seq<T>, z: seq<T>, rest: seq<T>)
    ensures var s := [x] + (y + z) + rest;
            |s| > |y| && s[0] == x && s[1..] == y + (z + rest) && s[1 + |y|..] == z + rest
  {
    var s := [x] + (y + z) + rest;
    assert s[1..] == y + (z + rest);
    assert s[1 + |y|..] == z + rest;
  }

  lemma {:induction false} BucketsParse(buckets: seq<seq<int>>, rest: seq<Token>)
    ensures ParseBuckets(BucketTokens(buckets) + rest, |buckets|) == Some(buckets)
  {
    if buckets != [] {
      hide BucketTokens;
      hide Indices;
      hide HasIndices;
      hide TakeIndices;
      var more := BucketTokens(buckets[1..]) + rest;
      var s := BucketTokens(buckets) + rest;
      BucketTokensFront(buckets);
      Cut(Count(|buckets[0]|), Indices(buckets[0]), BucketTokens(buckets[1..]), rest);
      IndicesLength(buckets[0]);
      IndicesBack(buckets[0], more);
      BucketsParse(buckets[1..], rest);
      assert [buckets[0]] + buckets[1..] == buckets;
    }
  }

  lemma InfosBack(svs: seq<Saved>, rest: seq<Token>)
    ensures HasInfos(Infos(svs) + rest, |svs|) && TakeInfos(Infos(svs) + rest, |svs|) == svs
  {
  }

  lemma WriteParts(f: PeersFile, rest: seq<Token>)
    ensures var s, bs, n, t := Write(f) + rest, BucketTokens(f.buckets) + rest, |f.news|, |f.trieds|;
            && |s| >= 6 + n + t && s[..6] == Header(f)
            && s[6..] == Infos(f.news) + (Infos(f.trieds) + bs)
            && s[6 + n..] == Infos(f.trieds) + bs && s[6 + n + t..] == bs
  {
    var x, y, z := Infos(f.news), Infos(f.trieds), BucketTokens(f.buckets) + rest;
    assert Write(f) + rest == Header(f) + (x + (y + z));
    assert (Header(f) + (x + (y + z)))[6..] == x + (y + z);
    assert (x + (y + z))[|x|..] == y + z;
    assert (y + z)[|y|..] == z;
  }

  lemma BothInfos(x: seq<Saved>, y: seq<Saved>, rest: seq<Token>)
    ensures HasInfos(Infos(x) + (Infos(y) + rest), |x| + |y|)
  {
  }

  /** A file that the reader has room for. */
  predicate Acceptable(f: PeersFile) {
    |f.buckets| == f.nUBuckets && |f.news| <= 65536 && |f.trieds| <= 16384
  }

  /** A file of any version within the limits is read as it was written, whatever follows. */
  lemma ParseWrite(f: PeersFile, rest: seq<Token>)
    requires Acceptable(f)
    ensures Parse(Write(f) + rest) == Some(f)
  {
    hide Write;
    hide Infos;
    hide HasInfos;
    hide TakeInfos;
    hide BucketTokens;
    hide ParseBuckets;
    hide Xor30;
    var s, bs := Write(f) + rest, BucketTokens(f.buckets) + rest;
    WriteParts(f, rest);
    XorTwice(f.nUBuckets);
    InfosBack(f.news, Infos(f.trieds) + bs);
    InfosBack(f.trieds, bs);
    BothInfos(f.news, f.trieds, bs);
    BucketsParse(f.buckets, rest);
    assert forall i :: 0 <= i < 6 ==> s[i] == s[..6][i];
    assert HasHeader(s);
  }

  // ---------- nothing else is read ----------

  lemma {:induction false} ParseBucketsBack(s: seq<Token>, n: nat)
    requires ParseBuckets(s, n).Some?
    ensures |ParseBuckets(s, n).value| == n && BucketTokens(ParseBuckets(s, n).value) <= s
  {
    if n > 0 {
      var c := s[0].n;
      ParseBucketsBack(s[1 + c..], n - 1);
      var bs := ParseBuckets(s, n).value;
      assert bs[1..] == ParseBuckets(s[1 + c..], n - 1).value;
      TakenIndices(s[1..], c);
      hide ParseBuckets;
      hide BucketTokens;
      hide Indices;
      hide TakeIndices;
      BucketTokensFront(bs);
      Front(s, c, BucketTokens(bs[1..]));
    }
  }

  lemma TakenIndices(s: seq<Token>, n: nat)
    requires HasIndices(s, n)
    ensures Indices(TakeIndices(s, n)) == s[..n] && |TakeIndices(s, n)| == n
  {
  }

  lemma Front<T>(s: seq<T>, c: nat, z: seq<T>)
    requires 1 + c <= |s| && z <= s[1 + c..]
    ensures [s[0]] + (s[1..][..c] + z) <= s
  {
    assert s[1..][..c] == s[1..1 + c];
    assert s == [s[0]] + (s[1..1 + c] + s[1 + c..]);
  }

  lemma TakenInfos(s: seq<Token>, n: nat)
    requires HasInfos(s, n)
    ensures Infos(TakeInfos(s, n)) == s[..n]
  {
  }

  /** What is read is an acceptable file, and the stream begins with just that file. */
  lemma ParseIsWrite(s: seq<Token>)
    requires Parse(s).Some?
    ensures Acceptable(Parse(s).value) && Write(Parse(s).value) <= s
  {
    var f, n, t := Parse(s).value, s[3].n, s[4].n;
    XorTwice(s[5].n);
    TakenInfos(s[6..], n);
    TakenInfos(s[6 + n..], t);
    ParseBucketsBack(s[6 + n + t..], f.nUBuckets);
    var bs := BucketTokens(f.buckets);
    hide ParseBuckets;
    hide BucketTokens;
    hide Xor30;
    hide Parse;
    hide Infos;
    hide TakeInfos;
    hide HasInfos;
    assert s[..6] == Header(f);
    Pieces(s, n, t, bs);
  }

  lemma Pieces<T>(s: seq<T>, n: nat, t: nat, bs: seq<T>)
    requires 6 + n + t <= |s| && bs <= s[6 + n + t..]
    ensures s[..6] + (s[6..][..n] + (s[6 + n..][..t] + bs)) <= s
  {
    assert s[6..][..n] == s[6..6 + n] && s[6 + n..][..t] == s[6 + n..6 + n + t];
    assert s == s[..6] + (s[6..6 + n] + (s[6 + n..6 + n + t] + s[6 + n + t..]));
  }

  /** The reader accepts a stream as a file exactly if the file fits and the stream begins with it. */
  lemma ParseExact(s: seq<Token>, f: PeersFile)
    ensures Parse(s) == Some(f) <==> Acceptable(f) && Write(f) <= s
  {
    hide Parse;
    hide Write;
    hide Acceptable;
    if Parse(s) == Some(f) {
      ParseIsWrite(s);
    }
    if Acceptable(f) && Write(f) <= s {
      assert s == Write(f) + s[|Write(f)|..];
      ParseWrite(f, s[|Write(f)|..]);
    }
  }

  /** Version 0 has the plain number of buckets; later ones have 2^30 more, so that an old reader runs out of stream. */
  lemma BucketField(f: PeersFile)
    requires f.nUBuckets < 1073741824
    ensures |Write(f)| >= 6 && Write(f)[5] == Count(if f.nVersion == 0 then f.nUBuckets else f.nUBuckets + 1073741824)
  {
    WriteParts(f, []);
    assert Write(f) + [] == Write(f);
    assert Write(f)[5] == Write(f)[..6][5];
  }

  /** How a stream begins: version 1, the size of the key, the key, the counts, and 1024 with bit 30 set. */
  lemma StreamStarts(bk: Book)
    requires Inv(bk) && bk.nIdCount >= 0
    ensures var s := Write(FileOf(bk));
            && |s| >= 6
            && s[..6] == [Byte(1), Byte(32), KeyOf(bk.k.nKey), Count(bk.nNew), Count(bk.nTried), Count(1073742848)]
  {
    hide InvBut;
    CountsWritten(bk);
    WriteParts(FileOf(bk), []);
    assert Write(FileOf(bk)) + [] == Write(FileOf(bk));
  }

  // ---------- the counts ----------

  function NewBelow(bk: Book, n: nat): set<int> {
    set id | id in bk.mapInfo && bk.mapInfo[id].nRefCount != 0 && 0 <= id < n
  }

  function TriedBelow(bk: Book, n: nat): set<int> {
    set id | id in bk.mapInfo && bk.mapInfo[id].fInTried && 0 <= id < n
  }

  lemma {:induction false} NewListSize(bk: Book, n: nat)
    ensures |NewList(bk, n)| == |NewBelow(bk, n)|
  {
    if n == 0 {
      assert NewBelow(bk, n) == {};
    } else {
      NewListSize(bk, n - 1);
      if n - 1 in bk.mapInfo && bk.mapInfo[n - 1].nRefCount != 0 {
        assert NewBelow(bk, n) == NewBelow(bk, n - 1) + {n - 1};
      } else {
        assert NewBelow(bk, n) == NewBelow(bk, n - 1);
      }
    }
  }

  lemma {:induction false} TriedListSize(bk: Book, n: nat)
    ensures |TriedList(bk, n)| == |TriedBelow(bk, n)|
  {
    if n == 0 {
      assert TriedBelow(bk, n) == {};
    } else {
      TriedListSize(bk, n - 1);
      if n - 1 in bk.mapInfo && bk.mapInfo[n - 1].fInTried {
        assert TriedBelow(bk, n) == TriedBelow(bk, n - 1) + {n - 1};
      } else {
        assert TriedBelow(bk, n) == TriedBelow(bk, n - 1);
      }
    }
  }

  /** The counters say how many entries are written. */
  lemma CountsWritten(bk: Book)
    requires Inv(bk) && bk.nIdCount >= 0
    ensures |FileOf(bk).news| == bk.nNew && |FileOf(bk).trieds| == bk.nTried
  {
    hide InvBut;
    var n := bk.nIdCount;
    NewListSize(bk, n);
    TriedListSize(bk, n);
    SplitKinds(bk);
    CountersHold(bk);
    assert NewBelow(bk, n) == NewIds(bk.mapInfo);
    assert TriedBelow(bk, n) == TriedIds(bk.mapInfo);
  }

  /** What is written for a manager is accepted and loads as the same knowledge. */
  lemma StreamRoundTrip(bk: Book)
    requires Inv(bk) && bk.nIdCount >= 0
    ensures Sound(FileOf(bk)) && Parse(Write(FileOf(bk))) == Some(FileOf(bk))
    ensures var bk' := Load(bk.k.h, FileOf(bk));
            && Inv(bk') && bk'.k == bk.k && ViewOf(bk') == Remembered(ViewOf(bk))
            && (Times(bk) ==> Times(bk'))
  {
    hide InvBut;
    WithinLimits(bk);
    CountsWritten(bk);
    ParseWrite(FileOf(bk), []);
    assert Write(FileOf(bk)) + [] == Write(FileOf(bk));
    SaveLoad(bk);
  }
}
