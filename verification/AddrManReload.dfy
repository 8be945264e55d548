/** Writing a well-formed address manager and reading it into a new one (`src/addrman.h`): nothing is
    lost or pruned, and everything is where it was. */
module AddrManReload {
  import opened Options
  import opened AddrTables
  import opened AddrManDisk
  import opened AddrManLoad
  import opened Sets

  /** The same entries in the same places; entry `ids[k]` now has the number `k`.  The time of the last
      attempt is not stored, and the permutation starts anew. */
  ghost predicate SameUpTo(s: Tables, r: Tables, ids: seq<int>) {
    && r.nNew == s.nNew && r.nTried == s.nTried && r.nIdCount == |ids| == |r.vRandom|
    && (forall i, j :: 0 <= i < j < |ids| ==> ids[i] != ids[j])
    && (forall id :: id in s.mapInfo ==> id in ids)
    && (forall k :: k in r.mapInfo ==> 0 <= k < |ids|)
    && (forall k {:trigger SameInfo(s, r, ids, k)} :: 0 <= k < |ids| ==> SameInfo(s, r, ids, k))
    && (forall ip {:trigger SameAddress(s, r, ids, ip)} :: SameAddress(s, r, ids, ip))
    && (forall t {:trigger SamePlaces(s, r, ids, t)} :: SamePlaces(s, r, ids, t))
  }

  ghost predicate SameInfo(s: Tables, r: Tables, ids: seq<int>, k: int)
    requires 0 <= k < |ids|
  {
    && ids[k] in s.mapInfo && k in r.mapInfo
    && r.mapInfo[k] == s.mapInfo[ids[k]].(nLastTry := 0, nRandomPos := k)
    && k < |r.vRandom| && r.vRandom[k] == k
  }

  ghost predicate SameAddress(s: Tables, r: Tables, ids: seq<int>, ip: Ip) {
    && (ip in r.mapAddr <==> ip in s.mapAddr)
    && (ip in r.mapAddr ==> 0 <= r.mapAddr[ip] < |ids| && ids[r.mapAddr[ip]] == s.mapAddr[ip])
  }

  ghost predicate SamePlaces(s: Tables, r: Tables, ids: seq<int>, t: Slot) {
    && (t in r.vvNew <==> t in s.vvNew) && (t in r.vvTried <==> t in s.vvTried)
    && (t in r.vvNew ==> 0 <= r.vvNew[t] < |ids| && ids[r.vvNew[t]] == s.vvNew[t])
    && (t in r.vvTried ==> 0 <= r.vvTried[t] < |ids| && ids[r.vvTried[t]] == s.vvTried[t])
  }

  // ---------------------------------------------------------------- placing the entries

  /** A well-formed manager `s`, and the state `r` after its entries have been read. */
  ghost predicate Setting(cfg: Config, s: Tables, r: Tables, es: seq<DiskInfo>, ids: seq<int>) {
    && ConfigOk(cfg) && Inv(cfg, s) && ids == FileIds(s) && s.nNew >= 0 && |ids| == s.nNew + s.nTried
    && (forall k :: 0 <= k < |ids| ==> ids[k] in s.mapInfo)
    && es == Entries(s.mapInfo, ids) && Filled(cfg, r, es, s.nNew)
    && r.nNew == s.nNew && r.nTried == s.nTried && r.nIdCount == |ids|
  }

  /** Entry `k` has as many references as buckets hold its id in `m`. */
  ghost predicate EntryPlaced(cfg: Config, r: Tables, es: seq<DiskInfo>, ids: seq<int>, first: nat, m: map<Slot, int>,
    k: int)
    requires 0 <= k < |es| == |ids|
  {
    k in r.mapInfo && r.mapInfo[k] == InfoOf(es[k], k, k >= first).(nRefCount := |Buckets(cfg, m, ids[k], es[k].addr)|)
  }

  ghost predicate SlotPlaced(r: Tables, ids: seq<int>, first: nat, m: map<Slot, int>, t: Slot) {
    && (t in r.vvNew <==> t in m)
    && (t in m ==> 0 <= r.vvNew[t] < first <= |ids| && ids[r.vvNew[t]] == m[t])
  }

  /** The places `m`, in the old numbering, have been restored. */
  ghost predicate Placing(cfg: Config, r0: Tables, r: Tables, es: seq<DiskInfo>, ids: seq<int>, first: nat, m: map<Slot,
    int>) {
    && |es| == |ids|
    && r == r0.(mapInfo := r.mapInfo, vvNew := r.vvNew) && r.mapInfo.Keys == r0.mapInfo.Keys
    && (forall k {:trigger EntryPlaced(cfg, r, es, ids, first, m, k)} :: 0 <= k < |es| ==>
       EntryPlaced(cfg, r, es, ids, first, m, k))
    && (forall t {:trigger SlotPlaced(r, ids, first, m, t)} :: SlotPlaced(r, ids, first, m, t))
  }

  lemma PlacingStarts(cfg: Config, s: Tables, r: Tables, es: seq<DiskInfo>, ids: seq<int>)
    requires Setting(cfg, s, r, es, ids)
    ensures Placing(cfg, r, r, es, ids, s.nNew, map[])
  {
    forall k | 0 <= k < |es| ensures EntryPlaced(cfg, r, es, ids, s.nNew, map[], k) {
      assert EntryAt(r, es, s.nNew, k);
      assert Buckets(cfg, map[], ids[k], es[k].addr) == {};
    }
    forall t ensures SlotPlaced(r, ids, s.nNew, map[], t) { }
  }

  ghost predicate Part(m: map<Slot, int>, whole: map<Slot, int>) {
    forall t :: t in m ==> t in whole && m[t] == whole[t]
  }

  /** An entry that has a place still to be restored has fewer references than allowed. */
  lemma RoomForMore(cfg: Config, s: Tables, m: map<Slot, int>, t: Slot)
    requires Inv(cfg, s) && Part(m, s.vvNew) && t in s.vvNew && t !in m
    ensures s.vvNew[t] in s.mapInfo
    ensures |Buckets(cfg, m, s.vvNew[t], s.mapInfo[s.vvNew[t]].addr)| < MAX_REFERENCES
  {
    var id := s.vvNew[t];
    assert NewOk(cfg, s, t);
    assert InfoOk(cfg, s, id, {});
    var a := s.mapInfo[id].addr;
    BucketsPlace(cfg, m, t, id, id, a);
    SubsetIsSmaller(Buckets(cfg, m[t := id], id, a), Buckets(cfg, s.vvNew, id, a));
  }

  /** The file's number of an entry of the "new" table is its place in the list of ids. */
  lemma RankIsPlace(cfg: Config, s: Tables, id: int)
    requires Inv(cfg, s) && id in s.mapInfo && !s.mapInfo[id].fInTried
    ensures Rank(s.mapInfo, id) < s.nNew <= |FileIds(s)| && FileIds(s)[Rank(s.mapInfo, id)] == id
  {
    assert InfoOk(cfg, s, id, {});
    FileIdsFacts(cfg, s);
    RankAt(s.mapInfo, false, id, AsCount(s.nIdCount));
  }

  /** The places below `n` of a bucket that are taken. */
  function Taken(m: map<Slot, int>, b: int, n: nat): (r: seq<int>)
    ensures forall p :: p in r <==> 0 <= p < n && (b, p) in m
    ensures forall i, j :: 0 <= i < j < |r| ==> r[i] < r[j]
  {
    if n == 0 then []
    else
      var before := Taken(m, b, n - 1);
      assert forall i :: 0 <= i < |before| ==> before[i] in before;
      before + if (b, n - 1) in m then [n - 1] else []
  }

  /** The number `x` stands for the entry at place `p` of the bucket. */
  ghost predicate StandsFor(s: Tables, b: int, x: int, p: int) {
    && 0 <= x < s.nNew <= |FileIds(s)|
    && (b, p) in s.vvNew && FileIds(s)[x] == s.vvNew[(b, p)]
  }

  lemma {:induction false} IndexesStand(cfg: Config, s: Tables, b: int, n: nat)
    requires Inv(cfg, s)
    ensures |Indexes(s, b, n)| == |Taken(s.vvNew, b, n)|
    ensures forall i :: 0 <= i < |Indexes(s, b, n)| ==> StandsFor(s, b, Indexes(s, b, n)[i], Taken(s.vvNew, b, n)[i])
    decreases n
  {
    if n > 0 {
      IndexesStand(cfg, s, b, n - 1);
      if (b, n - 1) in s.vvNew {
        assert NewOk(cfg, s, (b, n - 1));
        RankIsPlace(cfg, s, s.vvNew[(b, n - 1)]);
      }
    }
  }

  ghost predicate BucketTokens(s: Tables, b: int, t: seq<Token>, p: seq<int>) {
    && |t| == 1 + |p| && t[0] == Num(|p|)
    && forall i :: 0 <= i < |p| ==> t[1 + i].Num? && StandsFor(s, b, t[1 + i].n, p[i])
  }

  lemma TokensOf(s: Tables, b: int, x: seq<int>, p: seq<int>)
    requires |x| == |p| && forall i :: 0 <= i < |p| ==> StandsFor(s, b, x[i], p[i])
    ensures BucketTokens(s, b, WriteBucket(x), p)
  {
    NumsWritten(x);
  }

  /** A written bucket, number by number: how many places are taken, and then, in the order of the places, the
      numbers that the file gives the entries there. */
  lemma BucketLayout(cfg: Config, s: Tables, b: nat)
    requires Inv(cfg, s)
    ensures BucketTokens(s, b, WriteBucket(Indexes(s, b, cfg.bucketSize)), Taken(s.vvNew, b, cfg.bucketSize))
  {
    var x, p := Indexes(s, b, cfg.bucketSize), Taken(s.vvNew, b, cfg.bucketSize);
    assert |x| == |p| && forall i :: 0 <= i < |p| ==> StandsFor(s, b, x[i], p[i]) by {
      IndexesStand(cfg, s, b, cfg.bucketSize);
    }
    TokensOf(s, b, x, p);
  }

  /** One number of a bucket restores one place. */
  lemma PlaceStep(cfg: Config, s: Tables, r0: Tables, r: Tables, es: seq<DiskInfo>, ids: seq<int>, m: map<Slot, int>,
    t: Slot)
    requires Setting(cfg, s, r0, es, ids) && Placing(cfg, r0, r, es, ids, s.nNew, m) && Part(m, s.vvNew)
    requires t in s.vvNew && t !in m
    ensures Placing(cfg, r0, PlaceIndex(cfg, r, t.0, Rank(s.mapInfo, s.vvNew[t]), true, s.nNew), es, ids, s.nNew,
            m[t := s.vvNew[t]])
  {
    var id := s.vvNew[t];
    assert NewOk(cfg, s, t);
    RankIsPlace(cfg, s, id);
    var index := Rank(s.mapInfo, id);
    RoomForMore(cfg, s, m, t);
    assert EntryPlaced(cfg, r, es, ids, s.nNew, m, index);
    assert SlotPlaced(r, ids, s.nNew, m, t);
    var r', m' := Placed(r, index, t, r.mapInfo[index].nRefCount + 1), m[t := id];
    assert PlaceIndex(cfg, r, t.0, index, true, s.nNew) == r';
    FileIdsFacts(cfg, s);
    forall k | 0 <= k < |es| ensures EntryPlaced(cfg, r', es, ids, s.nNew, m', k) {
      assert EntryPlaced(cfg, r, es, ids, s.nNew, m, k);
      BucketsPlace(cfg, m, t, id, ids[k], es[k].addr);
    }
    forall u ensures SlotPlaced(r', ids, s.nNew, m', u) { assert SlotPlaced(r, ids, s.nNew, m, u); }
    assert r'.mapInfo.Keys == r0.mapInfo.Keys;
  }

  /** The places of the buckets before `b` and of the first `p` positions of bucket `b`. */
  function Done(vvNew: map<Slot, int>, b: int, p: int): map<Slot, int> {
    map t | t in vvNew && (t.0 < b || (t.0 == b && t.1 < p)) :: vvNew[t]
  }

  lemma DoneMore(vvNew: map<Slot, int>, b: int, p: nat)
    ensures Done(vvNew, b, p + 1) == if (b, p) in vvNew then Done(vvNew, b, p)[(b, p) := vvNew[(b, p)]]
            else Done(vvNew, b, p)
    ensures (b, p) !in Done(vvNew, b, p) && Part(Done(vvNew, b, p), vvNew)
  {
    var more, m := Done(vvNew, b, p + 1), Done(vvNew, b, p);
    forall u | u != (b, p) ensures u in more <==> u in m { assert u == (u.0, u.1); }
  }

  lemma {:induction false} BucketPlaced(cfg: Config, s: Tables, r0: Tables, r: Tables, es: seq<DiskInfo>, ids: seq<int>,
    b: int, p: nat)
    requires Setting(cfg, s, r0, es, ids) && Placing(cfg, r0, r, es, ids, s.nNew, Done(s.vvNew, b, 0))
    ensures Placing(cfg, r0, PlaceIndexes(cfg, r, b, Indexes(s, b, p), true, s.nNew), es, ids, s.nNew,
            Done(s.vvNew, b, p))
    decreases p
  {
    if p > 0 {
      BucketPlaced(cfg, s, r0, r, es, ids, b, p - 1);
      var t, m := (b, p - 1), Done(s.vvNew, b, p - 1);
      DoneMore(s.vvNew, b, p - 1);
      var before := Indexes(s, b, p - 1);
      if t in s.vvNew {
        var more := before + [Rank(s.mapInfo, s.vvNew[t])];
        assert more[..|more| - 1] == before;
        PlaceStep(cfg, s, r0, PlaceIndexes(cfg, r, b, before, true, s.nNew), es, ids, m, t);
      } else {
        assert Indexes(s, b, p) == before;
      }
    }
  }

  /** All positions of a bucket are below the bucket size. */
  lemma NextBucket(cfg: Config, s: Tables, b: int)
    requires ConfigOk(cfg) && Inv(cfg, s)
    ensures Done(s.vvNew, b, cfg.bucketSize) == Done(s.vvNew, b + 1, 0)
  {
    forall t ensures t in Done(s.vvNew, b, cfg.bucketSize) <==> t in Done(s.vvNew, b + 1, 0) {
      if t in s.vvNew { assert NewOk(cfg, s, t); }
    }
  }

  lemma AllBuckets(cfg: Config, s: Tables)
    requires ConfigOk(cfg) && Inv(cfg, s)
    ensures Done(s.vvNew, 0, 0) == map[] && Done(s.vvNew, cfg.newCount, 0) == s.vvNew
  {
    forall t ensures t !in Done(s.vvNew, 0, 0) && (t in s.vvNew ==> t in Done(s.vvNew, cfg.newCount, 0)) {
      if t in s.vvNew { assert NewOk(cfg, s, t); }
    }
    assert Done(s.vvNew, 0, 0) == map[];
  }

  function BucketList(cfg: Config, s: Tables): seq<seq<int>> {
    seq(cfg.newCount, b => Indexes(s, b, cfg.bucketSize))
  }

  lemma {:induction false} BucketsPlaced(cfg: Config, s: Tables, r0: Tables, es: seq<DiskInfo>, ids: seq<int>, n: nat)
    requires Setting(cfg, s, r0, es, ids) && n <= cfg.newCount
    ensures Placing(cfg, r0, PlaceBuckets(cfg, r0, BucketList(cfg, s)[..n], true, s.nNew), es, ids, s.nNew,
            Done(s.vvNew, n, 0))
    decreases n
  {
    AllBuckets(cfg, s);
    if n == 0 {
      PlacingStarts(cfg, s, r0, es, ids);
    } else {
      BucketsPlaced(cfg, s, r0, es, ids, n - 1);
      var bs := BucketList(cfg, s);
      assert bs[..n][..n - 1] == bs[..n - 1];
      BucketPlaced(cfg, s, r0, PlaceBuckets(cfg, r0, bs[..n - 1], true, s.nNew), es, ids, n - 1, cfg.bucketSize);
      NextBucket(cfg, s, n - 1);
    }
  }

  // ---------------------------------------------------------------- the round trip

  lemma PlacedIsSame(cfg: Config, s: Tables, r0: Tables, r: Tables, es: seq<DiskInfo>, ids: seq<int>)
    requires Setting(cfg, s, r0, es, ids) && Placing(cfg, r0, r, es, ids, s.nNew, s.vvNew)
    ensures SameUpTo(s, r, ids)
  {
    FileIdsFacts(cfg, s);
    forall k | 0 <= k < |ids| ensures SameInfo(s, r, ids, k) {
      assert EntryPlaced(cfg, r, es, ids, s.nNew, s.vvNew, k);
      assert InfoOk(cfg, s, ids[k], {});
    }
    forall ip ensures SameAddress(s, r, ids, ip) { AddressIsSame(cfg, s, r0, es, ids, ip); }
    forall t ensures SamePlaces(s, r, ids, t) {
      assert SlotPlaced(r, ids, s.nNew, s.vvNew, t);
      TriedIsSame(cfg, s, r0, es, ids, t);
    }
  }

  lemma AddressIsSame(cfg: Config, s: Tables, r: Tables, es: seq<DiskInfo>, ids: seq<int>, ip: Ip)
    requires Setting(cfg, s, r, es, ids)
    ensures SameAddress(s, r, ids, ip)
  {
    FileIdsFacts(cfg, s);
    assert AddressAt(r, es, ip);
    if ip in r.mapAddr {
      assert InfoOk(cfg, s, ids[r.mapAddr[ip]], {});
    }
    if ip in s.mapAddr {
      assert AddressOk(s, ip);
      var k :| 0 <= k < |ids| && ids[k] == s.mapAddr[ip];
      assert EntryAt(r, es, s.nNew, k);
    }
  }

  lemma TriedIsSame(cfg: Config, s: Tables, r: Tables, es: seq<DiskInfo>, ids: seq<int>, t: Slot)
    requires Setting(cfg, s, r, es, ids)
    ensures t in r.vvTried <==> t in s.vvTried
    ensures t in r.vvTried ==> 0 <= r.vvTried[t] < |ids| && ids[r.vvTried[t]] == s.vvTried[t]
  {
    FileIdsFacts(cfg, s);
    assert TriedAt(cfg, r, es, s.nNew, t);
    if t in r.vvTried {
      assert InfoOk(cfg, s, ids[r.vvTried[t]], {});
    }
    if t in s.vvTried {
      assert TriedOk(cfg, s, t);
      var k :| 0 <= k < |ids| && ids[k] == s.vvTried[t];
      assert Get(r.vvTried, TriedSlot(cfg, es[k].addr)) == Some(k);
    }
  }

  /** Every entry has its references again, so nothing is pruned. */
  lemma {:induction false} NothingPruned(cfg: Config, s: Tables, r: Tables, ids: seq<int>, n: nat)
    requires Inv(cfg, s) && SameUpTo(s, r, ids)
    ensures Pruned(r, n) == r
  {
    if n > 0 {
      NothingPruned(cfg, s, r, ids, n - 1);
      if n - 1 in r.mapInfo {
        assert SameInfo(s, r, ids, n - 1);
        assert InfoOk(cfg, s, ids[n - 1], {});
      }
    }
  }

  /** Reading what was written gives the same manager, up to the numbering of the entries. */
  lemma Reloaded(cfg: Config, key: int, s: Tables)
    requires ConfigOk(cfg) && Inv(cfg, s)
    ensures Parse(Format(ImageOf(cfg, key, s))) == Some(ImageOf(cfg, key, s))
    ensures SameUpTo(s, Load(cfg, ImageOf(cfg, key, s)), FileIds(s))
  {
    var img, ids := ImageOf(cfg, key, s), FileIds(s);
    LoadedEntries(cfg, s, key);
    FileIdsFacts(cfg, s);
    var r0 := EntriesLoaded(cfg, img);
    var es := Entries(s.mapInfo, ids);
    BucketsPlaced(cfg, s, r0, es, ids, cfg.newCount);
    AllBuckets(cfg, s);
    assert BucketList(cfg, s)[..cfg.newCount] == img.buckets;
    var r := PlaceBuckets(cfg, r0, img.buckets, true, s.nNew);
    PlacedIsSame(cfg, s, r0, r, es, ids);
    NothingPruned(cfg, s, r, ids, AsCount(r.nIdCount));
    ImageMatches(cfg, key, s);
    ParseFormat(img);
  }

  lemma ImageMatches(cfg: Config, key: int, s: Tables)
    requires Inv(cfg, s)
    ensures Matching(ImageOf(cfg, key, s))
  {
    FileIdsFacts(cfg, s);
  }

  /** The consistency check at the end of reading succeeds. */
  lemma ReloadedKeeps(cfg: Config, key: int, s: Tables)
    requires ConfigOk(cfg) && Inv(cfg, s)
    ensures Inv(cfg, Load(cfg, ImageOf(cfg, key, s)))
  {
    ParametersMayChange(cfg, key, s, cfg);
  }
}
