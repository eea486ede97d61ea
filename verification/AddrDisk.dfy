/** Writing a manager to a stream of values, and reading one from any such stream. */
module AddrDisk {
  import opened Options
  import opened AddrBook
  import opened AddrView
  import opened AddrPut
  import opened AddrFile
  import opened AddrLoad
  import opened AddrSave
  import opened AddrStore
  import opened AddrMan

  // ---------- reading ----------

  /** The counters as they will be once all entries are there. */
  function WithCounts(bk: Book, nIdCount: int, nNew: int, nTried: int): Book {
    bk.(nIdCount := nIdCount, nNew := nNew, nTried := nTried)
  }

  /** The maps of entries are not emptied, so the manager is consistent afterwards exactly if they were empty. */
  method Clear(m: AddrMan, nKey: Key)
    modifies m
    ensures m.Bk() == Blank(Placing(m.h, nKey)).(mapInfo := old(m.mapInfo), mapAddr := old(m.mapAddr))
            && m.nLastGood == 1
    ensures m.Valid() <==> old(m.mapInfo) == map[] && old(m.mapAddr) == map[]
    ensures m.Valid() ==> m.Knows() == map[]
  {
    StaleMaps(Blank(Placing(m.h, nKey)).(mapInfo := m.mapInfo, mapAddr := m.mapAddr));
    m.vRandom, m.nKey, m.vvNew, m.vvTried := [], nKey, map[], map[];
    m.nIdCount, m.nTried, m.nNew, m.nLastGood := 0, 0, 0, 1;
  }

  lemma StaleMaps(bk: Book)
    requires bk == Blank(bk.k).(mapInfo := bk.mapInfo, mapAddr := bk.mapAddr)
    ensures Inv(bk) <==> bk.mapInfo == map[] && bk.mapAddr == map[]
    ensures Inv(bk) ==> ViewOf(bk) == map[]
  {
    if RandomIndex(bk) {
      assert forall id :: id !in bk.mapInfo;
      assert bk.mapInfo == map[];
      if AddrIndex(bk) {
        assert forall a :: a !in bk.mapAddr;
        assert bk.mapAddr == map[];
      }
    }
    if bk.mapInfo == map[] {
      assert TriedIds(bk.mapInfo) == {} && NewIds(bk.mapInfo) == {};
    }
  }

  /** Read the new entries. */
  method ReadNews(m: AddrMan, s: seq<Token>, nNew: nat, usable: bool)
    requires HasInfos(s, nNew) && WithCounts(m.Bk(), 0, 0, 0) == Blank(Placing(m.h, m.nKey)) && m.nIdCount == 0
    modifies m
    ensures m.nKey == old(m.nKey) && m.nNew == old(m.nNew) && m.nTried == old(m.nTried)
            && m.nLastGood == old(m.nLastGood)
    ensures WithCounts(m.Bk(), nNew, nNew, 0) == LoadNews(Placing(m.h, m.nKey), TakeInfos(s, nNew), usable)
    ensures m.nIdCount == nNew && Chained(m.Bk())
  {
    hide Chained;
    hide LoadNew;
    ghost var svs := TakeInfos(s, nNew);
    var k := Placing(m.h, m.nKey);
    ghost var was := m.Bk();
    BlankChained(k);
    for n := 0 to nNew
      invariant m.nKey == old(m.nKey) && m.nLastGood == old(m.nLastGood)
      invariant m.nNew == was.nNew && m.nTried == was.nTried && m.nIdCount == 0
      invariant WithCounts(m.Bk(), n, n, 0) == LoadNews(k, svs[..n], usable)
      invariant Chained(WithCounts(m.Bk(), n, n, 0))
    {
      ghost var bk := WithCounts(m.Bk(), n, n, 0);
      assert svs[..n + 1][..n] == svs[..n];
      LoadNewChained(bk, s[n].sv, usable);
      ReadNew(m, n, s[n].sv, usable);
    }
    assert svs[..nNew] == svs;
    ghost var bk := WithCounts(m.Bk(), nNew, nNew, 0);
    m.nIdCount := nNew;
    ChainedCounts(bk, m.Bk());
  }

  lemma ChainedCounts(bk: Book, bk': Book)
    requires Chained(bk) && bk'.nIdCount == bk.nIdCount && bk'.mapInfo == bk.mapInfo && bk'.vRandom == bk.vRandom
    ensures Chained(bk')
  {
  }

  method ReadNew(m: AddrMan, n: nat, sv: Saved, usable: bool)
    requires m.nIdCount == 0
    modifies m
    ensures m.nKey == old(m.nKey) && m.nNew == old(m.nNew) && m.nTried == old(m.nTried)
            && m.nLastGood == old(m.nLastGood)
    ensures m.nIdCount == 0
    ensures WithCounts(m.Bk(), n + 1, n + 1, 0) == LoadNew(WithCounts(old(m.Bk()), n, n, 0), sv, usable)
  {
    var info := AddrInfo(Restore(sv), 0, false, |m.vRandom|);
    m.mapInfo := m.mapInfo[n := info];
    m.mapAddr := m.mapAddr[sv.svc.ip := n];
    m.vRandom := m.vRandom + [n];
    if !usable {
      var k := Placing(m.h, m.nKey);
      var nUBucket := NewBucket(k, sv.svc, sv.source);
      var u := NewSlot(k, sv.svc, nUBucket);
      if u !in m.vvNew {
        m.vvNew := m.vvNew[u := n];
        m.mapInfo := m.mapInfo[n := info.(nRefCount := info.nRefCount + 1)];
      }
    }
  }

  /** Read the tried entries; nLost of them find their slot taken. */
  method ReadTrieds(m: AddrMan, s: seq<Token>, nTried: nat)
    requires HasInfos(s, nTried) && Chained(m.Bk())
    modifies m
    ensures m.nKey == old(m.nKey) && m.nLastGood == old(m.nLastGood) && Chained(m.Bk())
    ensures m.Bk() == LoadTrieds(old(m.Bk()).(nTried := 0), TakeInfos(s, nTried))
  {
    hide Chained;
    hide LoadTried;
    ghost var svs, start := TakeInfos(s, nTried), m.Bk().(nTried := 0);
    SameChain(m.Bk(), start);
    m.nTried := nTried;
    var nLost := 0;
    for n := 0 to nTried
      invariant m.nKey == old(m.nKey) && m.nLastGood == old(m.nLastGood) && m.nTried == nTried
      invariant m.Bk().(nTried := n - nLost) == LoadTrieds(start, svs[..n])
      invariant Chained(m.Bk().(nTried := n - nLost))
    {
      ghost var bk := m.Bk().(nTried := n - nLost);
      assert svs[..n + 1][..n] == svs[..n];
      LoadTriedChained(bk, s[n].sv);
      var lost := ReadTried(m, s[n].sv, n - nLost);
      if lost {
        nLost := nLost + 1;
      }
    }
    assert svs[..nTried] == svs;
    m.nTried := m.nTried - nLost;
  }

  method ReadTried(m: AddrMan, sv: Saved, ghost count: int) returns (lost: bool)
    modifies m
    ensures m.nKey == old(m.nKey) && m.nLastGood == old(m.nLastGood) && m.nTried == old(m.nTried)
    ensures m.Bk().(nTried := if lost then count else count + 1) == LoadTried(old(m.Bk()).(nTried := count), sv)
  {
    var slot := TriedSlot(Placing(m.h, m.nKey), sv.svc);
    lost := slot in m.vvTried;
    if !lost {
      var nId := m.nIdCount;
      m.mapInfo := m.mapInfo[nId := AddrInfo(Restore(sv), 0, true, |m.vRandom|)];
      m.vRandom := m.vRandom + [nId];
      m.mapAddr := m.mapAddr[sv.svc.ip := nId];
      m.vvTried := m.vvTried[slot := nId];
      m.nIdCount := nId + 1;
    }
  }

  lemma SameChain(bk: Book, bk': Book)
    requires Chained(bk) && bk' == bk.(nTried := 0)
    ensures Chained(bk')
  {
  }

  /** Read the positions of one bucket. */
  method ReadBucket(m: AddrMan, bucket: nat, s: seq<Token>, nSize: nat, usable: bool)
    requires HasIndices(s, nSize) && Chained(m.Bk()) && m.nNew >= 0 && forall i :: 0 <= i < m.nNew ==> i in m.mapInfo
    modifies m
    ensures m.nKey == old(m.nKey) && m.nLastGood == old(m.nLastGood) && m.nNew == old(m.nNew) && Chained(m.Bk())
    ensures forall i :: 0 <= i < m.nNew ==> i in m.mapInfo
    ensures m.Bk() == if usable then LoadBucket(old(m.Bk()), bucket, TakeIndices(s, nSize), m.nNew) else old(m.Bk())
  {
    hide Chained;
    ghost var idxs, start := TakeIndices(s, nSize), m.Bk();
    var k := Placing(m.h, m.nKey);
    for n := 0 to nSize
      invariant m.nKey == old(m.nKey) && m.nLastGood == old(m.nLastGood) && m.nNew == start.nNew && Chained(m.Bk())
      invariant forall i :: 0 <= i < m.nNew ==> i in m.mapInfo
      invariant m.Bk() == if usable then LoadBucket(start, bucket, idxs[..n], m.nNew) else start
    {
      ghost var bk := m.Bk();
      assert idxs[..n + 1][..n] == idxs[..n];
      LoadIndexChained(bk, bucket, s[n].i, m.nNew);
      var nIndex := s[n].i;
      if 0 <= nIndex < m.nNew {
        var info := m.mapInfo[nIndex];
        var u := NewSlot(k, info.stats.svc, bucket);
        if usable && u !in m.vvNew && info.nRefCount < NEW_BUCKETS_PER_ADDRESS {
          m.mapInfo := m.mapInfo[nIndex := info.(nRefCount := info.nRefCount + 1)];
          m.vvNew := m.vvNew[u := nIndex];
          assert m.Bk() == LoadIndex(bk, bucket, nIndex, m.nNew);
        }
      }
    }
    assert idxs[..nSize] == idxs;
  }

  /** Where the tokens of the first n buckets end. */
  function BucketsEnd(s: seq<Token>, n: nat): (e: nat)
    ensures e <= |s|
  {
    if n == 0 || !HasBucket(s) then 0 else 1 + s[0].n + BucketsEnd(s[1 + s[0].n..], n - 1)
  }

  /** Reading one bucket more. */
  lemma {:induction false} ParseNext(s: seq<Token>, b: nat)
    requires ParseBuckets(s, b).Some?
    ensures |ParseBuckets(s, b).value| == b
    ensures var t := s[BucketsEnd(s, b)..];
            && (ParseBuckets(s, b + 1).Some? <==> HasBucket(t))
            && (HasBucket(t) ==>
                  && ParseBuckets(s, b + 1).value == ParseBuckets(s, b).value + [TakeIndices(t[1..], t[0].n)]
                  && s[BucketsEnd(s, b + 1)..] == t[1 + t[0].n..])
  {
    if b > 0 {
      var r := s[1 + s[0].n..];
      ParseNext(r, b - 1);
      assert r[BucketsEnd(r, b - 1)..] == s[BucketsEnd(s, b)..];
      if ParseBuckets(r, b).Some? {
        assert r[BucketsEnd(r, b)..] == s[BucketsEnd(s, b + 1)..];
      }
    } else {
      assert s[BucketsEnd(s, 0)..] == s;
      if HasBucket(s) {
        assert s[BucketsEnd(s, 1)..] == s[1 + s[0].n..];
      }
    }
  }

  lemma {:induction false} ParseMore(s: seq<Token>, b: nat, n: nat)
    requires b <= n && ParseBuckets(s, n).Some?
    ensures ParseBuckets(s, b).Some?
  {
    if b > 0 {
      ParseMore(s[1 + s[0].n..], b - 1, n - 1);
    }
  }

  /** Read all positions; fails when the stream ends too early. */
  method ReadBuckets(m: AddrMan, s: seq<Token>, nUBuckets: nat, usable: bool) returns (ok: bool)
    requires Chained(m.Bk()) && m.nNew >= 0 && forall i :: 0 <= i < m.nNew ==> i in m.mapInfo
    modifies m
    ensures m.nKey == old(m.nKey) && m.nLastGood == old(m.nLastGood) && m.nNew == old(m.nNew) && Chained(m.Bk())
    ensures ok <==> ParseBuckets(s, nUBuckets).Some?
    ensures ok && usable ==> m.Bk() == LoadBuckets(old(m.Bk()), ParseBuckets(s, nUBuckets).value, m.nNew)
    ensures ok && !usable ==> m.Bk() == old(m.Bk())
  {
    hide Chained;
    hide LoadBucket;
    hide LoadBuckets;
    hide ParseBuckets;
    hide BucketsEnd;
    hide HasIndices;
    hide TakeIndices;
    hide HasBucket;
    hide Loaded;
    ghost var start := m.Bk();
    NoBuckets(s, start, m.nNew, usable);
    var t := s;
    for bucket := 0 to nUBuckets
      invariant m.nKey == old(m.nKey) && m.nLastGood == old(m.nLastGood) && m.nNew == start.nNew && Chained(m.Bk())
      invariant forall i :: 0 <= i < m.nNew ==> i in m.mapInfo
      invariant ParseBuckets(s, bucket).Some? && t == s[BucketsEnd(s, bucket)..]
      invariant Loaded(m.Bk(), start, ParseBuckets(s, bucket).value, m.nNew, usable)
    {
      ghost var bk := m.Bk();
      ParseNext(s, bucket);
      if !HasBucket(t) {
        NoMore(s, bucket, nUBuckets);
        return false;
      }
      BucketHead(t);
      ReadBucket(m, bucket, t[1..], t[0].n, usable);
      ghost var bs := ParseBuckets(s, bucket).value;
      OneMore(bk, m.Bk(), start, bs, TakeIndices(t[1..], t[0].n), m.nNew, usable);
      t := t[1 + t[0].n..];
    }
    ok := true;
    AllLoaded(m.Bk(), start, ParseBuckets(s, nUBuckets).value, m.nNew, usable);
  }

  /** The book after the positions of some buckets have been read. */
  ghost predicate Loaded(bk: Book, start: Book, bs: seq<seq<int>>, nNew: nat, usable: bool) {
    bk == if usable then LoadBuckets(start, bs, nNew) else start
  }

  lemma AllLoaded(bk: Book, start: Book, bs: seq<seq<int>>, nNew: nat, usable: bool)
    requires Loaded(bk, start, bs, nNew, usable)
    ensures bk == if usable then LoadBuckets(start, bs, nNew) else start
  {
  }

  lemma BucketHead(s: seq<Token>)
    requires HasBucket(s)
    ensures s != [] && s[0].Count? && HasIndices(s[1..], s[0].n) && |s| >= 1 + s[0].n
  {
  }

  lemma NoBuckets(s: seq<Token>, bk: Book, nNew: nat, usable: bool)
    ensures ParseBuckets(s, 0) == Some([]) && s[BucketsEnd(s, 0)..] == s && Loaded(bk, bk, [], nNew, usable)
  {
  }

  lemma OneMore(bk: Book, bk': Book, start: Book, bs: seq<seq<int>>, b: seq<int>, nNew: nat, usable: bool)
    requires Loaded(bk, start, bs, nNew, usable)
    requires bk' == if usable then LoadBucket(bk, |bs|, b, nNew) else bk
    ensures Loaded(bk', start, bs + [b], nNew, usable)
  {
    assert (bs + [b])[..|bs|] == bs;
  }

  lemma NoMore(s: seq<Token>, b: nat, n: nat)
    requires b < n && ParseBuckets(s, b + 1).None?
    ensures ParseBuckets(s, n).None?
  {
    if ParseBuckets(s, n).Some? {
      ParseMore(s, b + 1, n);
    }
  }

  /** Delete the new entries that stand nowhere. */
  method PruneAll(m: AddrMan)
    requires Chained(m.Bk()) && m.nIdCount >= 0
    modifies m
    ensures m.nKey == old(m.nKey) && m.nLastGood == old(m.nLastGood) && m.nIdCount == old(m.nIdCount)
    ensures m.Bk() == Prune(old(m.Bk()), m.nIdCount)
  {
    hide Chained;
    hide Prune;
    hide CanDelete;
    hide AddrBook.Delete;
    ghost var start := m.Bk();
    PruneNone(start);
    for id := 0 to m.nIdCount
      invariant m.nKey == old(m.nKey) && m.nLastGood == old(m.nLastGood) && m.nIdCount == start.nIdCount
      invariant Chained(m.Bk()) && m.Bk() == Prune(start, id)
    {
      PruneNext(start, id);
      if id in m.mapInfo && !m.mapInfo[id].fInTried && m.mapInfo[id].nRefCount == 0 {
        DeleteChained(m.Bk(), id);
        m.Delete(id);
      }
    }
  }

  /** Read a manager. Any stream is accepted that is complete, has a key of the right size and keeps the limits. */
  method Unserialize(m: AddrMan, s: seq<Token>) returns (ok: bool)
    requires m.mapInfo == map[] && m.mapAddr == map[]
    modifies m
    ensures ok <==> Parse(s).Some?
    ensures ok ==> m.Bk() == Load(m.h, Parse(s).value) && m.nLastGood == 1
  {
    hide Chained;
    hide LoadNews;
    hide LoadTrieds;
    hide LoadBuckets;
    hide ParseBuckets;
    hide Xor30;
    hide Inv;
    hide ViewOf;
    hide Prune;
    Clear(m, m.nKey);
    if !HasHeader(s) { return false; }
    var nVersion, nNew, nTried := s[0].b, s[3].n, s[4].n;
    m.nKey := s[2].key;
    m.nNew, m.nTried := nNew, nTried;
    var nUBuckets := BucketCount(nVersion, s[5].n);
    var usable := nVersion == 1 && nUBuckets == NEW_BUCKET_COUNT;
    if !HasInfos(s[6..], nNew + nTried) { return false; }
    ReadNews(m, s[6..], nNew, usable);
    ReadTrieds(m, s[6 + nNew..], nTried);
    LoadedNews(m.h, s[2].key, TakeInfos(s[6..], nNew), TakeInfos(s[6 + nNew..], nTried), usable);
    ok := ReadBuckets(m, s[6 + nNew + nTried..], nUBuckets, usable);
    if ok {
      ChainedId(m.Bk());
      PruneAll(m);
    }
  }

  lemma ChainedId(bk: Book)
    requires Chained(bk)
    ensures bk.nIdCount >= 0
  {
  }

  /** The new entries of a file are there under their numbers, whatever the file. */
  lemma LoadedNews(h: Hashes, nKey: Key, news: seq<Saved>, trieds: seq<Saved>, usable: bool)
    ensures var bk := LoadTrieds(LoadNews(Placing(h, nKey), news, usable), trieds);
            bk.nNew == |news| && bk.nIdCount >= |news| && forall i :: 0 <= i < |news| ==> i in bk.mapInfo
  {
    NewsThere(Placing(h, nKey), news, usable);
    TriedsThere(LoadNews(Placing(h, nKey), news, usable), trieds, |news|);
  }

  lemma {:induction false} NewsThere(k: Placing, news: seq<Saved>, usable: bool)
    ensures var bk := LoadNews(k, news, usable);
            && bk.nNew == |news| && bk.nTried == 0 && bk.nIdCount == |news|
            && forall i :: 0 <= i < |news| ==> i in bk.mapInfo
  {
    if news != [] {
      NewsThere(k, news[..|news| - 1], usable);
    }
  }

  lemma {:induction false} TriedsThere(bk: Book, trieds: seq<Saved>, n: nat)
    requires bk.nNew == n && bk.nIdCount >= n && forall i :: 0 <= i < n ==> i in bk.mapInfo
    ensures var bk' := LoadTrieds(bk, trieds);
            bk'.nNew == n && bk'.nIdCount >= n && forall i :: 0 <= i < n ==> i in bk'.mapInfo
  {
    if trieds != [] {
      TriedsThere(bk, trieds[..|trieds| - 1], n);
    }
  }

  // ---------- writing ----------

  lemma InfosMore(svs: seq<Saved>, sv: Saved)
    ensures Infos(svs + [sv]) == Infos(svs) + [Info(sv)]
  {
  }

  /** Write the new entries and number them. */
  method WriteNews(m: AddrMan) returns (s: seq<Token>, mapUnkIds: map<int, int>)
    requires m.Valid()
    ensures s == Infos(FileOf(m.Bk()).news)
    ensures forall id :: id in m.mapInfo ==> id in mapUnkIds && mapUnkIds[id] == Rank(m.Bk(), id)
  {
    hide InvBut;
    ghost var bk := m.Bk();
    SplitKinds(bk);
    CountsWritten(bk);
    s, mapUnkIds := [], map[];
    var nIds := 0;
    for id := 0 to m.nIdCount
      invariant NewsIds(bk, id) && nIds == |NewList(bk, id)|
      invariant s == Infos(SavedOf(bk, NewList(bk, id)))
      invariant forall i :: i in m.mapInfo && i < id ==> i in mapUnkIds && mapUnkIds[i] == Rank(bk, i)
    {
      if id in m.mapInfo {
        mapUnkIds := mapUnkIds[id := nIds];
        if m.mapInfo[id].nRefCount != 0 {
          NewListAt(bk, id, m.nIdCount);
          assert nIds != m.nNew;
          SavedPrefix(bk, NewList(bk, id), id);
          InfosMore(SavedOf(bk, NewList(bk, id)), Save(m.mapInfo[id].stats));
          s := s + [Info(Save(m.mapInfo[id].stats))];
          nIds := nIds + 1;
        }
      }
    }
  }

  ghost predicate NewsIds(bk: Book, n: nat) {
    forall i :: 0 <= i < |NewList(bk, n)| ==> NewList(bk, n)[i] in bk.mapInfo
  }

  ghost predicate TriedsIds(bk: Book, n: nat) {
    forall i :: 0 <= i < |TriedList(bk, n)| ==> TriedList(bk, n)[i] in bk.mapInfo
  }

  lemma {:induction false} TriedListMonotone(bk: Book, i: nat, n: nat)
    requires i <= n
    ensures |TriedList(bk, i)| <= |TriedList(bk, n)|
  {
    if i < n {
      TriedListMonotone(bk, i, n - 1);
    }
  }

  method WriteTrieds(m: AddrMan) returns (s: seq<Token>)
    requires m.Valid()
    ensures s == Infos(FileOf(m.Bk()).trieds)
  {
    hide InvBut;
    ghost var bk := m.Bk();
    CountsWritten(bk);
    s := [];
    var nIds := 0;
    for id := 0 to m.nIdCount
      invariant TriedsIds(bk, id) && nIds == |TriedList(bk, id)|
      invariant s == Infos(SavedOf(bk, TriedList(bk, id)))
    {
      if id in m.mapInfo && m.mapInfo[id].fInTried {
        TriedListMonotone(bk, id + 1, m.nIdCount);
        assert nIds != m.nTried;
        SavedPrefix(bk, TriedList(bk, id), id);
        InfosMore(SavedOf(bk, TriedList(bk, id)), Save(m.mapInfo[id].stats));
        s := s + [Info(Save(m.mapInfo[id].stats))];
        nIds := nIds + 1;
      }
    }
  }

  /** Write the positions of one bucket: first how many, then the numbers. */
  method WriteBucket(m: AddrMan, bucket: nat, mapUnkIds: map<int, int>) returns (s: seq<Token>)
    requires m.Valid() && forall id :: id in m.mapInfo ==> id in mapUnkIds && mapUnkIds[id] == Rank(m.Bk(), id)
    ensures var list := BucketList(m.Bk(), bucket, BUCKET_SIZE); s == [Count(|list|)] + Indices(list)
  {
    hide InvBut;
    hide Rank;
    ghost var bk := m.Bk();
    var nSize := 0;
    for i := 0 to BUCKET_SIZE
      invariant nSize == |BucketList(bk, bucket, i)|
    {
      if Slot(bucket, i) in m.vvNew {
        nSize := nSize + 1;
      }
    }
    s := [Count(nSize)];
    for i := 0 to BUCKET_SIZE
      invariant s == [Count(nSize)] + Indices(BucketList(bk, bucket, i))
    {
      if Slot(bucket, i) in m.vvNew {
        var id := m.vvNew[Slot(bucket, i)];
        HolderNew(bk, Slot(bucket, i), {});
        assert id in m.mapInfo && Rank(bk, id) >= 0;
        var nIndex := mapUnkIds[id];
        IndicesMore(BucketList(bk, bucket, i), nIndex);
        s := s + [Index(nIndex)];
      }
    }
  }

  lemma IndicesMore(idxs: seq<int>, i: int)
    ensures Indices(idxs + [i]) == Indices(idxs) + [Index(i)]
  {
  }

  /** Write the positions of all buckets. */
  method WriteBuckets(m: AddrMan, mapUnkIds: map<int, int>) returns (buckets: seq<Token>)
    requires m.Valid() && forall id :: id in m.mapInfo ==> id in mapUnkIds && mapUnkIds[id] == Rank(m.Bk(), id)
    ensures buckets == BucketTokens(FileOf(m.Bk()).buckets)
  {
    hide InvBut;
    hide BucketList;
    hide Indices;
    hide Rank;
    ghost var bk := m.Bk();
    buckets := [];
    for bucket := 0 to NEW_BUCKET_COUNT
      invariant buckets == BucketTokens(BucketLists(bk, bucket))
    {
      var one := WriteBucket(m, bucket, mapUnkIds);
      buckets := buckets + one;
      ghost var lists := BucketLists(bk, bucket + 1);
      assert lists[..bucket] == BucketLists(bk, bucket);
    }
  }

  /** Write a manager. */
  method Serialize(m: AddrMan) returns (s: seq<Token>)
    requires m.Valid()
    ensures s == Write(FileOf(m.Bk()))
    ensures Parse(s) == Some(FileOf(m.Bk()))
  {
    hide InvBut;
    hide BucketTokens;
    hide BucketLists;
    hide Infos;
    hide Parse;
    hide SavedOf;
    hide Rank;
    hide Load;
    ghost var bk := m.Bk();
    CountsWritten(bk);
    StreamRoundTrip(bk);
    var header := [Byte(1), Byte(KEY_SIZE), KeyOf(m.nKey), Count(m.nNew), Count(m.nTried),
                   Count(Xor30(NEW_BUCKET_COUNT))];
    var news, mapUnkIds := WriteNews(m);
    var trieds := WriteTrieds(m);
    var buckets := WriteBuckets(m, mapUnkIds);
    s := header + (news + (trieds + buckets));
  }

  /** Save a manager and load it into a new one. */
  method Restart(m: AddrMan) returns (m': AddrMan)
    requires m.Valid()
    ensures m'.Valid() && m'.h == m.h && m'.nKey == m.nKey
    ensures m'.Knows() == Remembered(m.Knows()) && (Times(m.Bk()) ==> Times(m'.Bk()))
  {
    hide Inv;
    hide ViewOf;
    hide Load;
    hide FileOf;
    hide Write;
    hide Parse;
    hide Sound;
    hide Remembered;
    hide Times;
    var s := Serialize(m);
    m' := new AddrMan(m.h, m.nKey);
    StreamRoundTrip(m.Bk());
    var ok := Unserialize(m', s);
    NonNegativeCount(m.h, FileOf(m.Bk()));
  }

  lemma NonNegativeCount(h: Hashes, f: PeersFile)
    requires Sound(f)
    ensures Load(h, f).nIdCount >= 0
  {
    LoadTablesLoose(h, f);
    var bk := LoadTables(h, f);
    assert (set id | id in bk.mapInfo && id >= 0) == bk.mapInfo.Keys;
    PruneInv(bk, bk.nIdCount);
  }
}
