/** Writing an address manager and reading one into a new object: `CAddrMan::Serialize` and
    `CAddrMan::Unserialize` in `src/addrman.h`.

    The key of the bucket hashes is part of the file, so the configuration of the object that is read
    depends on it. */
module AddrManFile {
  import opened Options
  import opened AddrTables
  import opened AddrManager
  import opened AddrManDisk
  import opened AddrManLoad
  import opened AddrManReload

  // ---------------------------------------------------------------- writing

  lemma {:induction false} WriteManyMore<A>(write: A -> seq<Token>, xs: seq<A>, x: A)
    ensures WriteMany(write, xs + [x]) == WriteMany(write, xs) + write(x)
  {
    if xs == [] {
      assert xs + [x] == [x] && [x][1..] == [];
    } else {
      WriteManyMore(write, xs[1..], x);
      assert (xs + [x])[1..] == xs[1..] + [x];
    }
  }

  lemma ListedMore(m: map<int, Info>, tried: bool, id: nat)
    ensures ListedEntries(m, tried, id + 1) ==
            if id in m && Wanted(m[id], tried) then ListedEntries(m, tried, id) + [DiskOf(m[id])]
              else ListedEntries(m, tried, id)
  {
    ListedFacts(m, tried, id);
    ListedFacts(m, tried, id + 1);
    var before := Listed(m, tried, id);
    assert forall i :: 0 <= i < |before| ==> before[i] in before;
  }

  /** The counters of the manager are never exceeded. */
  lemma CounterNotReached(cfg: Config, s: Tables, tried: bool, id: nat)
    requires Inv(cfg, s) && id in s.mapInfo && Wanted(s.mapInfo[id], tried)
    ensures id < s.nIdCount
    ensures |Listed(s.mapInfo, tried, id)| != if tried then s.nTried else s.nNew
  {
    assert InfoOk(cfg, s, id, {});
    RankAt(s.mapInfo, tried, id, s.nIdCount);
    FileIdsFacts(cfg, s);
  }

  /** What is written of the entries below `id`. */
  function EntriesWritten(m: map<int, Info>, tried: bool, id: nat): seq<Token> {
    WriteMany(WriteEntry, ListedEntries(m, tried, id))
  }

  /** One round of either loop. */
  lemma EntryWritten(cfg: Config, s: Tables, tried: bool, id: nat)
    requires Inv(cfg, s) && id in s.mapInfo && Wanted(s.mapInfo[id], tried)
    ensures |Listed(s.mapInfo, tried, id)| != if tried then s.nTried else s.nNew
    ensures |Listed(s.mapInfo, tried, id + 1)| == |Listed(s.mapInfo, tried, id)| + 1
    ensures EntriesWritten(s.mapInfo, tried, id + 1) ==
            EntriesWritten(s.mapInfo, tried, id) + WriteEntry(DiskOf(s.mapInfo[id]))
  {
    CounterNotReached(cfg, s, tried, id);
    ListedMore(s.mapInfo, tried, id);
    WriteManyMore(WriteEntry, ListedEntries(s.mapInfo, tried, id), DiskOf(s.mapInfo[id]));
  }

  lemma NothingWritten(m: map<int, Info>, tried: bool, id: nat)
    requires id in m ==> !Wanted(m[id], tried)
    ensures |Listed(m, tried, id + 1)| == |Listed(m, tried, id)|
            && EntriesWritten(m, tried, id + 1) == EntriesWritten(m, tried, id)
  {
    ListedMore(m, tried, id);
  }

  /** The first loop: the entries of the "new" table, numbered in the order of their ids. */
  method WriteNews(m: CAddrMan) returns (part: seq<Token>, mapUnkIds: map<int, int>)
    requires m.Valid()
    ensures part == EntriesWritten(m.mapInfo, false, AsCount(m.nIdCount))
    ensures forall id :: id in m.mapInfo ==> id in mapUnkIds && mapUnkIds[id] == Rank(m.mapInfo, id)
  {
    part, mapUnkIds := [], map[];
    var nIds := 0;
    for id := 0 to m.nIdCount
      invariant nIds == |Listed(m.mapInfo, false, id)| && part == EntriesWritten(m.mapInfo, false, id)
      invariant forall j :: j in m.mapInfo && 0 <= j < id ==> j in mapUnkIds && mapUnkIds[j] == Rank(m.mapInfo, j)
    {
      if id in m.mapInfo {
        mapUnkIds := mapUnkIds[id := nIds];
      }
      if id in m.mapInfo && m.mapInfo[id].nRefCount != 0 {
        EntryWritten(m.cfg, m.Abs(), false, id);
        assert nIds != m.nNew;
        part := part + WriteEntry(DiskOf(m.mapInfo[id]));
        nIds := nIds + 1;
      } else {
        NothingWritten(m.mapInfo, false, id);
      }
    }
    forall id | id in m.mapInfo ensures 0 <= id < m.nIdCount { assert InfoOk(m.cfg, m.Abs(), id, {}); }
  }

  /** The second loop: the entries of the "tried" table. */
  method WriteTrieds(m: CAddrMan) returns (part: seq<Token>)
    requires m.Valid()
    ensures part == EntriesWritten(m.mapInfo, true, AsCount(m.nIdCount))
  {
    part := [];
    var nIds := 0;
    for id := 0 to m.nIdCount
      invariant nIds == |Listed(m.mapInfo, true, id)| && part == EntriesWritten(m.mapInfo, true, id)
    {
      if id in m.mapInfo && m.mapInfo[id].fInTried {
        EntryWritten(m.cfg, m.Abs(), true, id);
        assert nIds != m.nTried;
        part := part + WriteEntry(DiskOf(m.mapInfo[id]));
        nIds := nIds + 1;
      } else {
        NothingWritten(m.mapInfo, true, id);
      }
    }
  }

  lemma IndexesMore(s: Tables, b: int, i: nat)
    ensures Indexes(s, b, i + 1) == if (b, i) in s.vvNew then Indexes(s, b, i) + [Rank(s.mapInfo, s.vvNew[(b, i)])]
            else Indexes(s, b, i)
  {
    assert Indexes(s, b, i) + [] == Indexes(s, b, i);
  }

  /** The number of elements of a bucket. */
  method CountBucket(m: CAddrMan, bucket: nat) returns (nSize: nat)
    requires m.Valid() && bucket < m.cfg.newCount
    ensures nSize == |Indexes(m.Abs(), bucket, m.cfg.bucketSize)|
  {
    nSize := 0;
    for i := 0 to m.cfg.bucketSize
      invariant nSize == |Indexes(m.Abs(), bucket, i)|
    {
      IndexesMore(m.Abs(), bucket, i);
      var id := m.vvNew.Read(bucket, i);
      if id != -1 { nSize := nSize + 1; }
    }
  }

  method WriteOneBucket(m: CAddrMan, bucket: nat, mapUnkIds: map<int, int>) returns (part: seq<Token>)
    requires m.Valid() && bucket < m.cfg.newCount
    requires forall id :: id in m.mapInfo ==> id in mapUnkIds && mapUnkIds[id] == Rank(m.mapInfo, id)
    ensures part == WriteBucket(Indexes(m.Abs(), bucket, m.cfg.bucketSize))
  {
    var nSize := CountBucket(m, bucket);
    var indexes: seq<Token> := [];
    for i := 0 to m.cfg.bucketSize
      invariant indexes == WriteMany(WriteNum, Indexes(m.Abs(), bucket, i))
    {
      IndexesMore(m.Abs(), bucket, i);
      var id := m.vvNew.Read(bucket, i);
      if id != -1 {
        assert NewOk(m.cfg, m.Abs(), (bucket, i));
        var nIndex := mapUnkIds[id];
        WriteManyMore(WriteNum, Indexes(m.Abs(), bucket, i), nIndex);
        indexes := indexes + WriteNum(nIndex);
      }
    }
    part := [Num(nSize)] + indexes;
  }

  method WriteBuckets(m: CAddrMan, mapUnkIds: map<int, int>) returns (part: seq<Token>)
    requires m.Valid()
    requires forall id :: id in m.mapInfo ==> id in mapUnkIds && mapUnkIds[id] == Rank(m.mapInfo, id)
    ensures part == WriteMany(WriteBucket, BucketList(m.cfg, m.Abs()))
  {
    part := [];
    ghost var bs := BucketList(m.cfg, m.Abs());
    for bucket := 0 to m.cfg.newCount
      invariant part == WriteMany(WriteBucket, bs[..bucket])
    {
      var one := WriteOneBucket(m, bucket, mapUnkIds);
      assert bs[..bucket + 1] == bs[..bucket] + [bs[bucket]];
      WriteManyMore(WriteBucket, bs[..bucket], bs[bucket]);
      part := part + one;
    }
    assert bs[..m.cfg.newCount] == bs;
  }

  method Serialize(m: CAddrMan, nKey: int) returns (s: seq<Token>)
    requires m.Valid()
    ensures s == Format(ImageOf(m.cfg, nKey, m.Abs()))
  {
    s := [Num(1), Num(32), Num(nKey), Num(m.nNew), Num(m.nTried)];
    var nUBuckets := FlipBit30(m.cfg.newCount);
    s := s + [Num(nUBuckets)];
    var news, mapUnkIds := WriteNews(m);
    var trieds := WriteTrieds(m);
    var buckets := WriteBuckets(m, mapUnkIds);
    assert s == Header(ImageOf(m.cfg, nKey, m.Abs()));
    assert ImageOf(m.cfg, nKey, m.Abs()).buckets == BucketList(m.cfg, m.Abs());
    s := s + (news + (trieds + buckets));
  }

  // ---------------------------------------------------------------- reading

  /** The outcome of reading when `xs` have been read already. */
  function Continue<A>(xs: seq<A>, r: (seq<A>, seq<Token>)): (seq<A>, seq<Token>) {
    (xs + r.0, r.1)
  }

  lemma ReadStep<A>(read: seq<Token> -> Read<A>, xs: seq<A>, t: seq<Token>, n: nat)
    requires n > 0 && read(t).Some?
    ensures Continue(xs, ReadMany(read, t, n)) ==
            Continue(xs + [read(t).value.0], ReadMany(read, read(t).value.1, n - 1))
  {
    var a, rest := read(t).value.0, read(t).value.1;
    var more := ReadMany(read, rest, n - 1).0;
    assert xs + ([a] + more) == xs + [a] + more;
  }

  lemma ReadStart<A>(read: seq<Token> -> Read<A>, t: seq<Token>, n: nat)
    ensures Continue([], ReadMany(read, t, n)) == ReadMany(read, t, n)
  {
    assert [] + ReadMany(read, t, n).0 == ReadMany(read, t, n).0;
  }

  lemma ReadEnd<A>(read: seq<Token> -> Read<A>, xs: seq<A>, t: seq<Token>, n: nat)
    requires n == 0 || read(t) == None
    ensures Continue(xs, ReadMany(read, t, n)) == (xs, t)
  {
    assert xs + [] == xs;
  }

  /** One entry of the "new" table. */
  method AddNew(m: CAddrMan, n: int, e: DiskInfo, usable: bool)
    requires m.Shape() && n == |m.vRandom|
    modifies m, m.vvNew, m.vvNew.slots
    ensures m.Shape() && m.Abs() == NewEntry(m.cfg, old(m.Abs()), e, usable)
  {
    m.mapInfo := m.mapInfo[n := ReadInto(Get(m.mapInfo, n), e, |m.vRandom|)];
    m.mapAddr := m.mapAddr[e.addr.ip := n];
    m.vRandom := m.vRandom + [n];
    if !usable {
      PlaceBySource(m, n);
    }
  }

  /** If the buckets of the file cannot be used, the entry gets the place for its own source. */
  method PlaceBySource(m: CAddrMan, n: int)
    requires m.Shape() && n in m.mapInfo && n >= 0
    modifies m, m.vvNew, m.vvNew.slots
    ensures m.Shape()
    ensures var t := NewSlot(m.cfg, m.cfg.newBucket(old(m.mapInfo)[n].addr, old(m.mapInfo)[n].source),
            old(m.mapInfo)[n].addr);
            m.Abs() == if t in old(m.vvNew.content) then old(m.Abs())
              else Placed(old(m.Abs()), n, t, old(m.mapInfo)[n].nRefCount + 1)
  {
    var nUBucket := m.cfg.newBucket(m.mapInfo[n].addr, m.mapInfo[n].source);
    var nUBucketPos := m.cfg.position(true, nUBucket, m.mapInfo[n].addr);
    var at := m.vvNew.Read(nUBucket, nUBucketPos);
    if at == -1 {
      m.vvNew.Fill(nUBucket, nUBucketPos, n);
      m.mapInfo := m.mapInfo[n := m.mapInfo[n].(nRefCount := m.mapInfo[n].nRefCount + 1)];
    }
  }

  /** What reading the entries of the "new" table leaves: the entry in which the stream breaks off is
      there already. */
  ghost function NewsLeft(cfg: Config, s: Tables, news: seq<DiskInfo>, nNew: nat, part: DiskInfo,
    usable: bool): Tables {
    var r := NewEntries(cfg, s, news, usable);
    if |news| < nNew then r.(mapInfo := r.mapInfo[|news| := InfoOf(part, -1, false)]) else r
  }

  /** `n` entries of the "new" table have been read from `t0` into the state `s0`, and `t` is left. */
  ghost predicate NewsSoFar(cfg: Config, s0: Tables, t0: seq<Token>, nNew: nat, usable: bool, s: Tables, t: seq<Token>,
    news: seq<DiskInfo>) {
    && |news| <= nNew && |s.vRandom| == |news|
    && ReadMany(ReadEntry, t0, nNew) == Continue(news, ReadMany(ReadEntry, t, nNew - |news|))
    && s == NewEntries(cfg, s0, news, usable)
  }

  lemma NewsRound(cfg: Config, s0: Tables, t0: seq<Token>, nNew: nat, usable: bool, s: Tables, t: seq<Token>,
    news: seq<DiskInfo>)
    requires NewsSoFar(cfg, s0, t0, nNew, usable, s, t, news) && |news| < nNew && ReadEntry(t).Some?
    ensures var (e, rest) := ReadEntry(t).value;
            NewsSoFar(cfg, s0, t0, nNew, usable, NewEntry(cfg, s, e, usable), rest, news + [e])
  {
    ReadStep(ReadEntry, news, t, nNew - |news|);
    NewEntriesMore(cfg, s0, news, ReadEntry(t).value.0, usable);
  }

  /** The entries before the end of the stream. */
  method ReadWholeNews(m: CAddrMan, t0: seq<Token>, nNew: nat, usable: bool) returns (n: nat, t: seq<Token>)
    requires m.Shape() && m.vRandom == []
    modifies m, m.vvNew, m.vvNew.slots
    ensures m.Shape()
    ensures var (news, rest) := ReadMany(ReadEntry, t0, nNew);
            n == |news| && t == rest && m.Abs() == NewEntries(m.cfg, old(m.Abs()), news, usable)
  {
    t := t0;
    ghost var news: seq<DiskInfo> := [];
    ghost var s0 := m.Abs();
    ReadStart(ReadEntry, t0, nNew);
    n := 0;
    while n < nNew && ReadEntry(t).Some?
      invariant 0 <= n == |news| <= nNew && m.Shape()
      invariant NewsSoFar(m.cfg, s0, t0, nNew, usable, m.Abs(), t, news)
    {
      var (e, rest) := ReadEntry(t).value;
      NewsRound(m.cfg, s0, t0, nNew, usable, m.Abs(), t, news);
      AddNew(m, n, e, usable);
      news := news + [e];
      t := rest;
      n := n + 1;
    }
    ReadEnd(ReadEntry, news, t, nNew - n);
  }

  method ReadNews(m: CAddrMan, t0: seq<Token>, nNew: nat, part: DiskInfo, usable: bool)
    returns (ok: bool, t: seq<Token>)
    requires m.Shape() && m.vRandom == []
    modifies m, m.vvNew, m.vvNew.slots
    ensures m.Shape()
    ensures var (news, rest) := ReadMany(ReadEntry, t0, nNew);
            (ok <==> |news| == nNew) && t == rest && m.Abs() == NewsLeft(m.cfg, old(m.Abs()), news, nNew, part, usable)
  {
    var n;
    n, t := ReadWholeNews(m, t0, nNew, usable);
    ok := n == nNew;
    if !ok {
      m.mapInfo := m.mapInfo[n := InfoOf(part, -1, false)];
    }
  }

  lemma NewEntriesMore(cfg: Config, s: Tables, es: seq<DiskInfo>, e: DiskInfo, usable: bool)
    ensures NewEntries(cfg, s, es + [e], usable) == NewEntry(cfg, NewEntries(cfg, s, es, usable), e, usable)
  {
    assert (es + [e])[..|es|] == es;
  }

  lemma TriedEntriesMore(cfg: Config, s: Tables, es: seq<DiskInfo>, e: DiskInfo)
    ensures TriedEntries(cfg, s, es + [e]) == TriedEntry(cfg, TriedEntries(cfg, s, es), e)
  {
    assert (es + [e])[..|es|] == es;
  }

  /** One entry of the "tried" table, unless its place is taken. */
  method AddTried(m: CAddrMan, e: DiskInfo) returns (lost: bool)
    requires m.Shape()
    modifies m, m.vvTried, m.vvTried.slots
    ensures m.Shape() && m.nTried == old(m.nTried)
    ensures m.Abs().(nTried := m.nTried - if lost then 1 else 0) == TriedEntry(m.cfg, old(m.Abs()), e)
  {
    var nKBucket := m.cfg.triedBucket(e.addr);
    var nKBucketPos := m.cfg.position(false, nKBucket, e.addr);
    var at := m.vvTried.Read(nKBucket, nKBucketPos);
    if at == -1 {
      var info := InfoOf(e, |m.vRandom|, true);
      m.vRandom := m.vRandom + [m.nIdCount];
      m.mapInfo := m.mapInfo[m.nIdCount := info];
      m.mapAddr := m.mapAddr[e.addr.ip := m.nIdCount];
      m.vvTried.Write(nKBucket, nKBucketPos, m.nIdCount);
      m.nIdCount := m.nIdCount + 1;
      lost := false;
    } else {
      lost := true;
    }
  }

  /** What reading the entries of the "tried" table leaves: losses are deducted at the end only. */
  function TriedsLeft(cfg: Config, s: Tables, trieds: seq<DiskInfo>, nTried: nat): Tables {
    var r := TriedEntries(cfg, s, trieds);
    if |trieds| < nTried then r.(nTried := s.nTried) else r
  }

  /** The losses may be counted separately. */
  lemma TriedEntryLost(cfg: Config, s: Tables, e: DiskInfo, lost: int)
    ensures TriedEntry(cfg, s.(nTried := s.nTried - lost), e) ==
            TriedEntry(cfg, s, e).(nTried := TriedEntry(cfg, s, e).nTried - lost)
  {
  }

  /** `trieds` have been read from `t0` into the state `s0`, `lost` of them are lost, and `t` is left. */
  ghost predicate TriedsSoFar(cfg: Config, s0: Tables, t0: seq<Token>, nTried: nat, s: Tables, t: seq<Token>,
    trieds: seq<DiskInfo>, lost: int) {
    && |trieds| <= nTried && s.nTried == s0.nTried
    && ReadMany(ReadEntry, t0, nTried) == Continue(trieds, ReadMany(ReadEntry, t, nTried - |trieds|))
    && s.(nTried := s.nTried - lost) == TriedEntries(cfg, s0, trieds)
  }

  lemma TriedsRound(cfg: Config, s0: Tables, t0: seq<Token>, nTried: nat, s: Tables, t: seq<Token>,
    trieds: seq<DiskInfo>, lost: int,
                    r: Tables, more: int)
    requires TriedsSoFar(cfg, s0, t0, nTried, s, t, trieds, lost) && |trieds| < nTried && ReadEntry(t).Some?
    requires r.nTried == s.nTried && r.(nTried := r.nTried - more) == TriedEntry(cfg, s, ReadEntry(t).value.0)
    ensures var (e, rest) := ReadEntry(t).value; TriedsSoFar(cfg, s0, t0, nTried, r, rest, trieds + [e], lost + more)
  {
    var e := ReadEntry(t).value.0;
    ReadStep(ReadEntry, trieds, t, nTried - |trieds|);
    TriedEntriesMore(cfg, s0, trieds, e);
    TriedEntryLost(cfg, s, e, lost);
  }

  method ReadTrieds(m: CAddrMan, t0: seq<Token>, nTried: nat) returns (ok: bool, t: seq<Token>)
    requires m.Shape()
    modifies m, m.vvTried, m.vvTried.slots
    ensures m.Shape()
    ensures var (trieds, rest) := ReadMany(ReadEntry, t0, nTried);
            (ok <==> |trieds| == nTried) && t == rest && m.Abs() == TriedsLeft(m.cfg, old(m.Abs()), trieds, nTried)
  {
    t := t0;
    ghost var trieds: seq<DiskInfo> := [];
    ghost var s0 := m.Abs();
    ReadStart(ReadEntry, t0, nTried);
    var nLost, n := 0, 0;
    while n < nTried
      invariant 0 <= n == |trieds| <= nTried && m.Shape()
      invariant TriedsSoFar(m.cfg, s0, t0, nTried, m.Abs(), t, trieds, nLost)
    {
      var next := ReadEntry(t);
      if next == None {
        ReadEnd(ReadEntry, trieds, t, nTried - n);
        return false, t;
      }
      ghost var s := m.Abs();
      var lost := AddTried(m, next.value.0);
      TriedsRound(m.cfg, s0, t0, nTried, s, t, trieds, nLost, m.Abs(), if lost then 1 else 0);
      if lost { nLost := nLost + 1; }
      trieds := trieds + [next.value.0];
      t := next.value.1;
      n := n + 1;
    }
    m.nTried := m.nTried - nLost;
    ReadEnd(ReadEntry, trieds, t, 0);
    ok := true;
  }

  method PlaceOne(m: CAddrMan, bucket: nat, nIndex: int, usable: bool, nNew: int)
    requires m.Shape() && (usable ==> bucket < m.cfg.newCount) && forall k :: 0 <= k < nNew ==> k in m.mapInfo
    modifies m`mapInfo, m.vvNew, m.vvNew.slots
    ensures m.Shape() && m.Abs() == PlaceIndex(m.cfg, old(m.Abs()), bucket, nIndex, usable, nNew)
    ensures m.mapInfo.Keys == old(m.mapInfo.Keys)
  {
    if nIndex >= 0 && nIndex < nNew {
      var info := m.mapInfo[nIndex];
      var nUBucketPos := m.cfg.position(true, bucket, info.addr);
      if usable {
        var at := m.vvNew.Read(bucket, nUBucketPos);
        if at == -1 && info.nRefCount < MAX_REFERENCES {
          m.mapInfo := m.mapInfo[nIndex := info.(nRefCount := info.nRefCount + 1)];
          m.vvNew.Fill(bucket, nUBucketPos, nIndex);
        }
      }
    }
  }

  lemma PlaceIndexesMore(cfg: Config, s: Tables, b: int, indexes: seq<int>, index: int, usable: bool, nNew: int)
    ensures PlaceIndexes(cfg, s, b, indexes + [index], usable, nNew) ==
            PlaceIndex(cfg, PlaceIndexes(cfg, s, b, indexes, usable, nNew), b, index, usable, nNew)
  {
    assert (indexes + [index])[..|indexes|] == indexes;
  }

  lemma PlaceBucketsMore(cfg: Config, s: Tables, buckets: seq<seq<int>>, bucket: seq<int>, usable: bool, nNew: int)
    ensures PlaceBuckets(cfg, s, buckets + [bucket], usable, nNew) ==
            PlaceIndexes(cfg, PlaceBuckets(cfg, s, buckets, usable, nNew), |buckets|, bucket, usable, nNew)
  {
    assert (buckets + [bucket])[..|buckets|] == buckets;
  }

  method ReadOneBucket(m: CAddrMan, t0: seq<Token>, bucket: nat, usable: bool, nNew: int)
    returns (ok: bool, t: seq<Token>)
    requires m.Shape() && (usable ==> bucket < m.cfg.newCount) && forall k :: 0 <= k < nNew ==> k in m.mapInfo
    modifies m`mapInfo, m.vvNew, m.vvNew.slots
    ensures m.Shape() && (ok <==> ReadBucket(t0).Some?) && m.mapInfo.Keys == old(m.mapInfo.Keys)
    ensures m.Abs() == PlaceIndexes(m.cfg, old(m.Abs()), bucket, BucketStart(t0), usable, nNew)
    ensures ok ==> ReadBucket(t0).value == (BucketStart(t0), t)
  {
    t := t0;
    var size := ReadNum(t);
    if size == None { return false, t; }
    var nSize := AsCount(size.value.0);
    t := size.value.1;
    ghost var t1, s0 := t, m.Abs();
    ghost var indexes: seq<int> := [];
    ReadStart(ReadNum, t1, nSize);
    var n := 0;
    while n < nSize
      invariant 0 <= n == |indexes| <= nSize && m.Shape() && m.mapInfo.Keys == s0.mapInfo.Keys
      invariant ReadMany(ReadNum, t1, nSize) == Continue(indexes, ReadMany(ReadNum, t, nSize - n))
      invariant m.Abs() == PlaceIndexes(m.cfg, s0, bucket, indexes, usable, nNew)
    {
      var next := ReadNum(t);
      if next == None {
        ReadEnd(ReadNum, indexes, t, nSize - n);
        return false, t;
      }
      ReadStep(ReadNum, indexes, t, nSize - n);
      PlaceIndexesMore(m.cfg, s0, bucket, indexes, next.value.0, usable, nNew);
      PlaceOne(m, bucket, next.value.0, usable, nNew);
      indexes := indexes + [next.value.0];
      t := next.value.1;
      n := n + 1;
    }
    ReadEnd(ReadNum, indexes, t, 0);
    ok := true;
  }

  /** What reading the buckets leaves: the numbers of a bucket count even if the stream breaks off. */
  function BucketsLeft(cfg: Config, s: Tables, t: seq<Token>, nUBuckets: nat, usable: bool, nNew: int): Tables {
    var (buckets, rest) := ReadMany(ReadBucket, t, nUBuckets);
    var r := PlaceBuckets(cfg, s, buckets, usable, nNew);
    if |buckets| < nUBuckets then PlaceIndexes(cfg, r, |buckets|, BucketStart(rest), usable, nNew) else r
  }

  /** `buckets` have been read from `t0` into the state `s0`, and `t` is left. */
  ghost predicate BucketsSoFar(cfg: Config, s0: Tables, t0: seq<Token>, nUBuckets: nat, usable: bool, nNew: int,
                               s: Tables, t: seq<Token>, buckets: seq<seq<int>>)
  {
    && |buckets| <= nUBuckets
       && ReadMany(ReadBucket, t0, nUBuckets) == Continue(buckets, ReadMany(ReadBucket, t, nUBuckets - |buckets|))
    && s == PlaceBuckets(cfg, s0, buckets, usable, nNew)
  }

  lemma BucketsRound(cfg: Config, s0: Tables, t0: seq<Token>, nUBuckets: nat, usable: bool, nNew: int,
                     s: Tables, t: seq<Token>, buckets: seq<seq<int>>)
    requires BucketsSoFar(cfg, s0, t0, nUBuckets, usable, nNew, s, t, buckets) && |buckets| < nUBuckets
             && ReadBucket(t).Some?
    ensures var (bucket, rest) := ReadBucket(t).value;
            var r := PlaceIndexes(cfg, s, |buckets|, bucket, usable, nNew);
            BucketsSoFar(cfg, s0, t0, nUBuckets, usable, nNew, r, rest, buckets + [bucket])
  {
    ReadStep(ReadBucket, buckets, t, nUBuckets - |buckets|);
    PlaceBucketsMore(cfg, s0, buckets, ReadBucket(t).value.0, usable, nNew);
  }

  method ReadBuckets(m: CAddrMan, t0: seq<Token>, nUBuckets: nat, usable: bool, nNew: int) returns (ok: bool)
    requires m.Shape() && (usable ==> nUBuckets == m.cfg.newCount) && forall k :: 0 <= k < nNew ==> k in m.mapInfo
    modifies m`mapInfo, m.vvNew, m.vvNew.slots
    ensures m.Shape() && (ok <==> |ReadMany(ReadBucket, t0, nUBuckets).0| == nUBuckets)
    ensures m.Abs() == BucketsLeft(m.cfg, old(m.Abs()), t0, nUBuckets, usable, nNew)
  {
    var t := t0;
    ghost var buckets: seq<seq<int>> := [];
    ghost var s0 := m.Abs();
    ReadStart(ReadBucket, t0, nUBuckets);
    var bucket := 0;
    while bucket < nUBuckets
      invariant 0 <= bucket == |buckets| <= nUBuckets && m.Shape() && m.mapInfo.Keys == s0.mapInfo.Keys
      invariant BucketsSoFar(m.cfg, s0, t0, nUBuckets, usable, nNew, m.Abs(), t, buckets)
    {
      ghost var was, s := t, m.Abs();
      ok, t := ReadOneBucket(m, t, bucket, usable, nNew);
      if !ok {
        ReadEnd(ReadBucket, buckets, was, nUBuckets - bucket);
        return false;
      }
      BucketsRound(m.cfg, s0, t0, nUBuckets, usable, nNew, s, was, buckets);
      buckets := buckets + [ReadBucket(was).value.0];
      bucket := bucket + 1;
    }
    ReadEnd(ReadBucket, buckets, t, 0);
    ok := true;
  }

  // ---------------------------------------------------------------- pruning

  /** Entries are numbered in the order in which they were read. */
  ghost predicate Numbered(s: Tables) {
    forall k {:trigger NumberedAt(s, k)} :: NumberedAt(s, k)
  }

  ghost predicate NumberedAt(s: Tables, k: int) {
    && (k in s.mapInfo <==> 0 <= k < |s.vRandom|)
    && (k in s.mapInfo ==> s.vRandom[k] == k && s.mapInfo[k].nRandomPos == k)
  }

  ghost predicate PositionOk(s: Tables, id: int)
    requires id in s.mapInfo
  {
    0 <= s.mapInfo[id].nRandomPos < |s.vRandom| && s.vRandom[s.mapInfo[id].nRandomPos] == id
  }

  /** The permutation and the positions of the entries are inverse. */
  ghost predicate Positions(s: Tables) {
    Random(s) && forall id {:trigger PositionOk(s, id)} :: id in s.mapInfo ==> PositionOk(s, id)
  }

  /** The next number is larger than those given so far. */
  ghost predicate Ordered(s: Tables) {
    Positions(s) && forall id :: id in s.mapInfo ==> id < s.nIdCount
  }

  lemma NumberedOrdered(s: Tables, n: int)
    requires Numbered(s) && |s.vRandom| == AsCount(n)
    ensures Ordered(s.(nIdCount := n)) && forall k :: 0 <= k < n ==> k in s.mapInfo
  {
    var r := s.(nIdCount := n);
    forall id | id in s.mapInfo ensures id < n && PositionOk(r, id) { assert NumberedAt(s, id); }
    forall p | 0 <= p < |r.vRandom| ensures PlaceOk(r, p) { assert NumberedAt(s, p); }
    forall k | 0 <= k < n ensures k in s.mapInfo { assert NumberedAt(s, k); }
  }

  lemma {:induction false} NewsNumbered(cfg: Config, s: Tables, es: seq<DiskInfo>, usable: bool)
    requires Numbered(s)
    ensures var r := NewEntries(cfg, s, es, usable);
            && Numbered(r) && |r.vRandom| == |s.vRandom| + |es|
            && r.nNew == s.nNew && r.nTried == s.nTried && r.nIdCount == s.nIdCount
  {
    if es != [] {
      NewsNumbered(cfg, s, es[..|es| - 1], usable);
      var r := NewEntries(cfg, s, es[..|es| - 1], usable);
      var r' := NewEntry(cfg, r, es[|es| - 1], usable);
      forall k ensures NumberedAt(r', k) { assert NumberedAt(r, k); }
    }
  }

  lemma {:induction false} TriedsOrdered(cfg: Config, s: Tables, es: seq<DiskInfo>)
    requires Ordered(s)
    ensures Ordered(TriedEntries(cfg, s, es)) && TriedEntries(cfg, s, es).nNew == s.nNew
  {
    if es != [] {
      TriedsOrdered(cfg, s, es[..|es| - 1]);
      TriedOrdered(cfg, TriedEntries(cfg, s, es[..|es| - 1]), es[|es| - 1]);
    }
  }

  lemma TriedOrdered(cfg: Config, s: Tables, e: DiskInfo)
    requires Ordered(s)
    ensures Ordered(TriedEntry(cfg, s, e))
  {
    var r := TriedEntry(cfg, s, e);
    forall id | id in r.mapInfo ensures PositionOk(r, id) { if id in s.mapInfo { assert PositionOk(s, id); } }
    forall p | 0 <= p < |r.vRandom| ensures PlaceOk(r, p) { if p < |s.vRandom| { assert PlaceOk(s, p); } }
  }

  lemma {:induction false} IndexesPositions(cfg: Config, s: Tables, b: int, indexes: seq<int>, usable: bool, nNew: int)
    requires Positions(s)
    ensures Positions(PlaceIndexes(cfg, s, b, indexes, usable, nNew))
  {
    if indexes != [] {
      var n := |indexes| - 1;
      IndexesPositions(cfg, s, b, indexes[..n], usable, nNew);
      var r := PlaceIndexes(cfg, s, b, indexes[..n], usable, nNew);
      var q := PlaceIndex(cfg, r, b, indexes[n], usable, nNew);
      forall id | id in q.mapInfo ensures PositionOk(q, id) { assert PositionOk(r, id); }
      forall p | 0 <= p < |q.vRandom| ensures PlaceOk(q, p) { assert PlaceOk(r, p); }
    }
  }

  lemma {:induction false} BucketsPositions(cfg: Config, s: Tables, buckets: seq<seq<int>>, usable: bool, nNew: int)
    requires Positions(s)
    ensures Positions(PlaceBuckets(cfg, s, buckets, usable, nNew))
  {
    if buckets != [] {
      var b := |buckets| - 1;
      BucketsPositions(cfg, s, buckets[..b], usable, nNew);
      IndexesPositions(cfg, PlaceBuckets(cfg, s, buckets[..b], usable, nNew), b, buckets[b], usable, nNew);
    }
  }

  /** Deleting keeps the permutation in step, whatever the file said. */
  lemma DeletedPositions(s: Tables, id: int)
    requires Positions(s) && id in s.mapInfo
    ensures CanDelete(s, id) && Positions(Deleted(s, id))
  {
    assert PositionOk(s, id);
    var p, q := s.mapInfo[id].nRandomPos, |s.vRandom| - 1;
    assert PlaceOk(s, p) && PlaceOk(s, q);
    var r := Deleted(s, id);
    forall j | j in r.mapInfo ensures PositionOk(r, j) {
      assert PositionOk(s, j); assert PlaceOk(s, s.mapInfo[j].nRandomPos);
    }
    forall u | 0 <= u < |r.vRandom| ensures PlaceOk(r, u) { assert PlaceOk(s, u); }
  }

  method PruneOne(m: CAddrMan, id: nat)
    requires m.Shape() && Positions(m.Abs())
    modifies m`mapInfo, m`vRandom, m`mapAddr, m`nNew
    ensures m.Shape() && Positions(m.Abs())
    ensures var r := old(m.Abs());
            m.Abs() == if id in r.mapInfo && !r.mapInfo[id].fInTried && r.mapInfo[id].nRefCount == 0
              && CanDelete(r, id) then Deleted(r, id) else r
  {
    if id in m.mapInfo {
      DeletedPositions(m.Abs(), id);
      if !m.mapInfo[id].fInTried && m.mapInfo[id].nRefCount == 0 {
        m.Delete(id);
      }
    }
  }

  /** The last loop of `Unserialize`. */
  method Prune(m: CAddrMan)
    requires m.Shape() && Positions(m.Abs())
    modifies m`mapInfo, m`vRandom, m`mapAddr, m`nNew
    ensures m.Shape() && m.Abs() == Pruned(old(m.Abs()), AsCount(old(m.nIdCount)))
  {
    ghost var s0 := m.Abs();
    var n := AsCount(m.nIdCount);
    for id := 0 to n
      invariant m.Shape() && Positions(m.Abs()) && m.Abs() == Pruned(s0, id)
    {
      PruneOne(m, id);
    }
  }

  // ---------------------------------------------------------------- reading a file

  /** Reads a file into a new object, which is there whether or not reading succeeds: `part` is what was
      read of the entry in which the stream breaks off.  The key determines the hashes; it is random
      until the one of the file has been read. */
  method Unserialize(keyed: int -> Config, randomKey: int, part: DiskInfo, stream: seq<Token>)
    returns (ok: bool, m: CAddrMan)
    requires forall key :: ConfigOk(keyed(key))
    ensures fresh(m) && m.Shape() && m.cfg == keyed(FileKey(randomKey, stream))
    ensures (m.Abs(), ok) == FileRead(m.cfg, part, stream)
  {
    var nums := HeaderNums(stream);
    m := new CAddrMan(keyed(FileKey(randomKey, stream)));
    if |nums| >= 4 { m.nNew := nums[3]; }
    if |nums| >= 5 { m.nTried := nums[4]; }
    if |nums| < 6 { return false, m; }
    var img, t0 := ReadHeader(stream).value.0, ReadHeader(stream).value.1;
    ok := ReadLists(m, img, part, t0, Usable(m.cfg, img));
  }

  /** Everything that follows the header. */
  method ReadLists(m: CAddrMan, img: Image, part: DiskInfo, t0: seq<Token>, usable: bool) returns (ok: bool)
    requires m.Shape() && m.Abs() == FRESH.(nNew := img.nNew, nTried := img.nTried) && usable == Usable(m.cfg, img)
    modifies m, m.vvNew, m.vvNew.slots, m.vvTried, m.vvTried.slots
    ensures m.Shape() && (m.Abs(), ok) == BodyRead(m.cfg, img, part, t0)
  {
    ghost var s0 := m.Abs();
    ghost var (news, _) := ReadMany(ReadEntry, t0, AsCount(m.nNew));
    var t;
    ok, t := ReadNews(m, t0, AsCount(m.nNew), part, usable);
    if !ok { return; }
    NewsNumbered(m.cfg, s0, news, usable);
    m.nIdCount := m.nNew;
    NumberedOrdered(NewEntries(m.cfg, s0, news, usable), m.nNew);
    ok := ReadRest(m, img, t, usable);
  }

  /** Everything that follows the entries of the "new" table. */
  method ReadRest(m: CAddrMan, img: Image, t1: seq<Token>, usable: bool) returns (ok: bool)
    requires m.Shape() && Ordered(m.Abs()) && usable == Usable(m.cfg, img) && m.nNew == img.nNew
             && m.nTried == img.nTried
    requires forall k :: 0 <= k < m.nNew ==> k in m.mapInfo
    modifies m, m.vvNew, m.vvNew.slots, m.vvTried, m.vvTried.slots
    ensures m.Shape()
    ensures var (trieds, t2) := ReadMany(ReadEntry, t1, AsCount(img.nTried));
            var s2 := TriedsLeft(m.cfg, old(m.Abs()), trieds, AsCount(img.nTried));
            var s3 := BucketsLeft(m.cfg, s2, t2, AsCount(img.nUBuckets), usable, img.nNew);
            (ok <==>
              |trieds| == AsCount(img.nTried)
              && |ReadMany(ReadBucket, t2, AsCount(img.nUBuckets)).0| == AsCount(img.nUBuckets))
            && m.Abs() == if |trieds| < AsCount(img.nTried) then s2 else if ok then Pruned(s3, AsCount(s3.nIdCount))
               else s3
  {
    ghost var s1 := m.Abs();
    ghost var (trieds, _) := ReadMany(ReadEntry, t1, AsCount(img.nTried));
    var t;
    ok, t := ReadTrieds(m, t1, AsCount(m.nTried));
    if !ok { return; }
    TriedsOrdered(m.cfg, s1, trieds);
    TriedsGrow(m.cfg, s1, trieds);
    forall k | 0 <= k < m.nNew ensures k in m.mapInfo { assert k in s1.mapInfo.Keys; }
    ghost var s2, buckets := m.Abs(), ReadMany(ReadBucket, t, AsCount(img.nUBuckets)).0;
    ok := ReadBuckets(m, t, AsCount(img.nUBuckets), usable, m.nNew);
    if !ok { return; }
    BucketsPositions(m.cfg, s2, buckets, usable, img.nNew);
    Prune(m);
  }

  /** A restart: a manager that is written and read into a new object is well formed and the same up to
      the numbering of its entries. */
  method Restart(m: CAddrMan, keyed: int -> Config, nKey: int, randomKey: int, part: DiskInfo)
    returns (ok: bool, r: CAddrMan)
    requires m.Valid() && m.cfg == keyed(nKey) && forall key :: ConfigOk(keyed(key))
    ensures ok && fresh(r) && r.Valid() && r.cfg == m.cfg
    ensures SameUpTo(m.Abs(), r.Abs(), FileIds(m.Abs()))
  {
    ghost var img := ImageOf(m.cfg, nKey, m.Abs());
    Reloaded(m.cfg, nKey, m.Abs());
    ReloadedKeeps(m.cfg, nKey, m.Abs());
    HeaderInverse(img);
    FileReadIsLoad(m.cfg, part, Format(img));
    var stream := Serialize(m, nKey);
    ok, r := Unserialize(keyed, randomKey, part, stream);
  }
}
