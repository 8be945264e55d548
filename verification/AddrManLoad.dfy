/** What reading a file into an empty address manager gives for whatever bucket counts, hashes and
    version (`src/addrman.h`): the promise that the parameters may change without breaking the file. */
module AddrManLoad {
  import opened AddrTables
  import opened AddrMan
  import opened AddrManDisk

  // ---------------------------------------------------------------- while entries are read

  /** The state with the counters that its entries call for. */
  function Normal(s: Tables): Tables {
    s.(nIdCount := |s.vRandom|, nNew := |NewIds(s.mapInfo)|, nTried := |TriedIds(s.mapInfo)|)
  }

  /** The invariant, but for the references that "new" entries lack. */
  ghost predicate Unplaced(cfg: Config, s: Tables) {
    Almost(cfg, s, NewIds(s.mapInfo), 0)
  }

  lemma BackToLimbo(cfg: Config, s: Tables, limbo: set<int>)
    requires Almost(cfg, s, limbo, 0)
    ensures Unplaced(cfg, s)
  {
    forall id | id in s.mapInfo ensures InfoOk(cfg, s, id, NewIds(s.mapInfo)) { assert InfoOk(cfg, s, id, limbo); }
  }

  lemma CreatedCounts(s: Tables, i: Info)
    requires s.nIdCount !in s.mapInfo && !i.fInTried
    ensures var c := Created(s, i);
            && NewIds(c.mapInfo) == NewIds(s.mapInfo) + {s.nIdCount} && TriedIds(c.mapInfo) == TriedIds(s.mapInfo)
            && |NewIds(c.mapInfo)| == |NewIds(s.mapInfo)| + 1
  {
    var c := Created(s, i);
    assert NewIds(c.mapInfo) == NewIds(s.mapInfo) + {s.nIdCount} && TriedIds(c.mapInfo) == TriedIds(s.mapInfo);
  }

  /** An entry that was created, still in neither table. */
  lemma CreatedUnplaced(cfg: Config, s: Tables, e: DiskInfo)
    requires Unplaced(cfg, Normal(s)) && e.addr.ip !in s.mapAddr && e.nLastSuccess >= 0
    ensures |s.vRandom| !in s.mapInfo
    ensures var c := Created(Normal(s), InfoOf(e, |s.vRandom|, false));
            Unplaced(cfg, c) && NewIds(c.mapInfo) == NewIds(s.mapInfo) + {|s.vRandom|}
  {
    var n := Normal(s);
    var i := InfoOf(e, |s.vRandom|, false);
    FreshId(cfg, n, NewIds(s.mapInfo));
    CreatedKeeps(cfg, n, i, NewIds(s.mapInfo), 0);
    CreatedCounts(n, i);
  }

  lemma PlacedCounts(s: Tables, id: int, t: Slot, n: int)
    requires id in s.mapInfo
    ensures NewIds(Placed(s, id, t, n).mapInfo) == NewIds(s.mapInfo)
            && TriedIds(Placed(s, id, t, n).mapInfo) == TriedIds(s.mapInfo)
  {
  }

  /** A "new" entry of the file, with or without a place. */
  lemma NewEntryKeeps(cfg: Config, s: Tables, e: DiskInfo, usable: bool)
    requires ConfigOk(cfg) && Unplaced(cfg, Normal(s)) && e.addr.ip !in s.mapAddr && e.nLastSuccess >= 0
    ensures var r := NewEntry(cfg, s, e, usable);
            && Unplaced(cfg, Normal(r)) && |NewIds(r.mapInfo)| == |NewIds(s.mapInfo)| + 1
               && TriedIds(r.mapInfo) == TriedIds(s.mapInfo)
  {
    var id, t, r := |s.vRandom|, NewSlot(cfg, cfg.newBucket(e.addr, e.source), e.addr), NewEntry(cfg, s, e, usable);
    var c := Created(Normal(s), InfoOf(e, id, false));
    CreatedUnplaced(cfg, s, e);
    CreatedCounts(Normal(s), InfoOf(e, id, false));
    if !usable && t !in s.vvNew {
      PlacedKeeps(cfg, c, id, t, NewIds(c.mapInfo), 0);
      PlacedCounts(c, id, t, 1);
      BackToLimbo(cfg, Placed(c, id, t, 1), NewIds(c.mapInfo) - {id});
      assert Normal(r) == Placed(c, id, t, 1);
    } else {
      assert Normal(r) == c;
    }
  }

  /** A "tried" entry of the file that finds its place free. */
  lemma TriedEntryPlaced(cfg: Config, s: Tables, e: DiskInfo)
    requires ConfigOk(cfg) && Unplaced(cfg, Normal(s)) && s.nIdCount == |s.vRandom| && e.addr.ip !in s.mapAddr
             && e.nLastSuccess > 0
    requires TriedSlot(cfg, e.addr) !in s.vvTried
    ensures var r := TriedEntry(cfg, s, e);
            && Unplaced(cfg, Normal(r)) && NewIds(r.mapInfo) == NewIds(s.mapInfo)
            && |TriedIds(r.mapInfo)| == |TriedIds(s.mapInfo)| + 1
  {
    var id, t, r := s.nIdCount, TriedSlot(cfg, e.addr), TriedEntry(cfg, s, e);
    CreatedUnplaced(cfg, s, e);
    var c := Created(Normal(s), InfoOf(e, id, false));
    TriedKeeps(cfg, c, id, t, NewIds(c.mapInfo), 0);
    var u := Tried(c, id, t);
    assert NewIds(u.mapInfo) == NewIds(s.mapInfo);
    assert TriedIds(u.mapInfo) == TriedIds(s.mapInfo) + {id};
    Recount(cfg, u, u.nNew - 1, NewIds(c.mapInfo) - {id}, -1);
    BackToLimbo(cfg, u.(nNew := u.nNew - 1), NewIds(c.mapInfo) - {id});
    assert r.mapInfo == u.mapInfo;
    assert Normal(r) == u.(nNew := u.nNew - 1);
  }

  /** A "tried" entry of the file, which may be lost. */
  lemma TriedEntryKeeps(cfg: Config, s: Tables, e: DiskInfo)
    requires ConfigOk(cfg) && Unplaced(cfg, Normal(s)) && s.nIdCount == |s.vRandom| && e.addr.ip !in s.mapAddr
             && e.nLastSuccess > 0
    ensures var r := TriedEntry(cfg, s, e);
            && Unplaced(cfg, Normal(r)) && NewIds(r.mapInfo) == NewIds(s.mapInfo)
            && r.nTried - s.nTried == |TriedIds(r.mapInfo)| - |TriedIds(s.mapInfo)| - 1
  {
    if TriedSlot(cfg, e.addr) in s.vvTried {
      assert Normal(TriedEntry(cfg, s, e)) == Normal(s).(nIdCount := Normal(s).nIdCount);
    } else {
      TriedEntryPlaced(cfg, s, e);
    }
  }

  /** One number of a bucket. */
  lemma IndexKeeps(cfg: Config, s: Tables, b: int, index: int, usable: bool, nNew: int)
    requires Unplaced(cfg, s) && (usable ==> 0 <= b < cfg.newCount) && NewBelow(s, nNew)
    ensures var r := PlaceIndex(cfg, s, b, index, usable, nNew); Unplaced(cfg, r) && NewBelow(r, nNew)
  {
    var r := PlaceIndex(cfg, s, b, index, usable, nNew);
    if r != s {
      var t := NewSlot(cfg, b, s.mapInfo[index].addr);
      PlacedKeeps(cfg, s, index, t, NewIds(s.mapInfo), 0);
      BackToLimbo(cfg, r, NewIds(s.mapInfo) - {index});
    }
  }

  /** The first entries are those of the "new" table. */
  ghost predicate NewBelow(s: Tables, nNew: int) {
    forall k :: 0 <= k < nNew && k in s.mapInfo ==> !s.mapInfo[k].fInTried
  }

  // ---------------------------------------------------------------- whole lists

  ghost predicate Different(es: seq<DiskInfo>) {
    forall i, j :: 0 <= i < j < |es| ==> es[i].addr.ip != es[j].addr.ip
  }

  ghost predicate Successes(es: seq<DiskInfo>, least: int) {
    forall i :: 0 <= i < |es| ==> es[i].nLastSuccess >= least
  }

  /** Every entry is one of those. */
  ghost predicate Among(s: Tables, es: seq<DiskInfo>) {
    && (forall id :: id in s.mapInfo ==> DiskOf(s.mapInfo[id]) in es)
    && (forall ip :: ip in s.mapAddr ==> exists k :: 0 <= k < |es| && es[k].addr.ip == ip)
  }

  lemma AmongMore(s: Tables, r: Tables, es: seq<DiskInfo>, e: DiskInfo)
    requires Among(s, es) && r.mapAddr.Keys <= s.mapAddr.Keys + {e.addr.ip}
    requires forall id :: id in r.mapInfo ==>
             DiskOf(r.mapInfo[id]) == e || (id in s.mapInfo && DiskOf(r.mapInfo[id]) == DiskOf(s.mapInfo[id]))
    ensures Among(r, es + [e])
  {
    var es' := es + [e];
    assert es'[|es|] == e;
    forall ip | ip in r.mapAddr ensures exists k :: 0 <= k < |es'| && es'[k].addr.ip == ip {
      if ip in s.mapAddr {
        var k :| 0 <= k < |es| && es[k].addr.ip == ip;
        assert es'[k] == es[k];
      }
    }
  }

  /** An address that comes later in the list is not known yet. */
  lemma NotYet(s: Tables, es: seq<DiskInfo>, e: DiskInfo)
    requires Among(s, es) && forall i :: 0 <= i < |es| ==> es[i].addr.ip != e.addr.ip
    ensures e.addr.ip !in s.mapAddr
  {
  }

  /** The state after the entries `es` of the "new" table. */
  ghost predicate NewsRead(cfg: Config, r: Tables, es: seq<DiskInfo>) {
    && Unplaced(cfg, Normal(r)) && Among(r, es)
    && |NewIds(r.mapInfo)| == |es| == |r.vRandom| && TriedIds(r.mapInfo) == {}
  }

  lemma NewsStep(cfg: Config, r: Tables, es: seq<DiskInfo>, e: DiskInfo, usable: bool)
    requires ConfigOk(cfg) && NewsRead(cfg, r, es) && e.nLastSuccess >= 0
    requires forall i :: 0 <= i < |es| ==> es[i].addr.ip != e.addr.ip
    ensures NewsRead(cfg, NewEntry(cfg, r, e, usable), es + [e])
  {
    NotYet(r, es, e);
    NewEntryKeeps(cfg, r, e, usable);
    AmongMore(r, NewEntry(cfg, r, e, usable), es, e);
  }

  lemma {:induction false} NewsKeep(cfg: Config, s: Tables, es: seq<DiskInfo>, usable: bool)
    requires ConfigOk(cfg) && Different(es) && Successes(es, 0) && NewsRead(cfg, s, [])
    ensures NewsRead(cfg, NewEntries(cfg, s, es, usable), es)
    ensures var r := NewEntries(cfg, s, es, usable);
            r.nNew == s.nNew && r.nTried == s.nTried && r.vvTried == s.vvTried && r.nIdCount == s.nIdCount
  {
    if es != [] {
      var n := |es| - 1;
      NewsKeep(cfg, s, es[..n], usable);
      assert es[..n] + [es[n]] == es;
      NewsStep(cfg, NewEntries(cfg, s, es[..n], usable), es[..n], es[n], usable);
    }
  }

  lemma NothingRead(cfg: Config, s: Tables)
    requires s == FRESH.(nNew := s.nNew, nTried := s.nTried)
    ensures NewsRead(cfg, s, [])
  {
    assert NewIds(s.mapInfo) == {} && TriedIds(s.mapInfo) == {};
  }

  // ---------------------------------------------------------------- the "tried" table

  /** The state after the entries `es`, of which the first `first` are of the "new" table, and with
      `left` entries of the "tried" table still to come. */
  ghost predicate TriedsRead(cfg: Config, r: Tables, es: seq<DiskInfo>, first: nat, left: int) {
    && Unplaced(cfg, Normal(r)) && Among(r, es)
    && |NewIds(r.mapInfo)| == first <= r.nIdCount == |r.vRandom| && NewBelow(r, first)
    && r.nTried == |TriedIds(r.mapInfo)| + left
  }

  lemma TriedsStep(cfg: Config, r: Tables, es: seq<DiskInfo>, first: nat, left: int, e: DiskInfo)
    requires ConfigOk(cfg) && TriedsRead(cfg, r, es, first, left) && e.nLastSuccess > 0
    requires forall i :: 0 <= i < |es| ==> es[i].addr.ip != e.addr.ip
    ensures TriedsRead(cfg, TriedEntry(cfg, r, e), es + [e], first, left - 1)
  {
    NotYet(r, es, e);
    TriedEntryKeeps(cfg, r, e);
    AmongMore(r, TriedEntry(cfg, r, e), es, e);
  }

  /** Whether an earlier entry has the same place in the "tried" table. */
  predicate PlaceTaken(cfg: Config, es: seq<DiskInfo>, e: DiskInfo) {
    exists i :: 0 <= i < |es| && TriedSlot(cfg, es[i].addr) == TriedSlot(cfg, e.addr)
  }

  /** The entries of the "tried" table that find their places free; the others are lost. */
  function Kept(cfg: Config, es: seq<DiskInfo>): (r: seq<DiskInfo>)
    ensures |r| <= |es|
  {
    if es == [] then []
    else
      var n := |es| - 1;
      Kept(cfg, es[..n]) + if PlaceTaken(cfg, es[..n], es[n]) then [] else [es[n]]
  }

  lemma {:induction false} KeptIsPart(cfg: Config, es: seq<DiskInfo>)
    ensures forall e :: e in Kept(cfg, es) ==> e in es
  {
    if es != [] { KeptIsPart(cfg, es[..|es| - 1]); }
  }

  ghost predicate SlotsTaken(cfg: Config, r: Tables, es: seq<DiskInfo>) {
    forall e: DiskInfo {:trigger PlaceTaken(cfg, es, e)} :: TriedSlot(cfg, e.addr) in r.vvTried <==>
      PlaceTaken(cfg, es, e)
  }

  lemma SlotsStep(cfg: Config, r: Tables, es: seq<DiskInfo>, e: DiskInfo)
    requires SlotsTaken(cfg, r, es) && r.nIdCount >= 0
    ensures SlotsTaken(cfg, TriedEntry(cfg, r, e), es + [e])
  {
    var more := es + [e];
    forall x: DiskInfo ensures TriedSlot(cfg, x.addr) in TriedEntry(cfg, r, e).vvTried <==> PlaceTaken(cfg, more, x) {
      if PlaceTaken(cfg, es, x) {
        var i :| 0 <= i < |es| && TriedSlot(cfg, es[i].addr) == TriedSlot(cfg, x.addr);
        assert more[i] == es[i];
      }
      if TriedSlot(cfg, e.addr) == TriedSlot(cfg, x.addr) { assert more[|es|] == e; }
      assert TriedSlot(cfg, e.addr) in r.vvTried <==> PlaceTaken(cfg, es, e);
    }
  }

  /** One more entry of the "tried" table: it is kept or lost. */
  lemma KeptStep(cfg: Config, r: Tables, news: seq<DiskInfo>, es: seq<DiskInfo>, e: DiskInfo, left: int)
    requires ConfigOk(cfg) && SlotsTaken(cfg, r, es) && TriedsRead(cfg, r, news + Kept(cfg, es), |news|, left)
    requires Different(news + Kept(cfg, es + [e])) && Successes(Kept(cfg, es + [e]), 1)
    ensures TriedsRead(cfg, TriedEntry(cfg, r, e), news + Kept(cfg, es + [e]), |news|, left - 1)
    ensures SlotsTaken(cfg, TriedEntry(cfg, r, e), es + [e])
  {
    var before, after := news + Kept(cfg, es), news + Kept(cfg, es + [e]);
    assert (es + [e])[..|es|] == es;
    SlotsStep(cfg, r, es, e);
    if PlaceTaken(cfg, es, e) {
      assert after == before;
      LostStep(cfg, r, before, |news|, left, e);
    } else {
      assert after == before + [e];
      assert after[|before|] == e;
      assert Kept(cfg, es + [e])[|Kept(cfg, es)|] == e;
      forall i | 0 <= i < |before| ensures before[i].addr.ip != e.addr.ip { assert after[i] == before[i]; }
      TriedsStep(cfg, r, before, |news|, left, e);
    }
  }

  lemma LostStep(cfg: Config, r: Tables, es: seq<DiskInfo>, first: nat, left: int, e: DiskInfo)
    requires TriedsRead(cfg, r, es, first, left) && TriedSlot(cfg, e.addr) in r.vvTried
    ensures TriedsRead(cfg, TriedEntry(cfg, r, e), es, first, left - 1)
  {
    assert Normal(TriedEntry(cfg, r, e)) == Normal(r);
  }

  lemma KeptPrefix(cfg: Config, news: seq<DiskInfo>, es: seq<DiskInfo>)
    requires es != [] && Different(news + Kept(cfg, es)) && Successes(Kept(cfg, es), 1)
    ensures Different(news + Kept(cfg, es[..|es| - 1])) && Successes(Kept(cfg, es[..|es| - 1]), 1)
  {
    var less, kept := Kept(cfg, es[..|es| - 1]), Kept(cfg, es);
    assert less == kept[..|less|];
    assert news + less == (news + kept)[..|news| + |less|];
    forall i | 0 <= i < |less| ensures less[i].nLastSuccess >= 1 { assert less[i] == kept[i]; }
  }

  lemma {:induction false} TriedsKeep(cfg: Config, s: Tables, news: seq<DiskInfo>, es: seq<DiskInfo>, left: int)
    requires ConfigOk(cfg) && Different(news + Kept(cfg, es)) && Successes(Kept(cfg, es), 1)
    requires TriedsRead(cfg, s, news, |news|, left) && s.vvTried == map[]
    ensures var r := TriedEntries(cfg, s, es);
            && TriedsRead(cfg, r, news + Kept(cfg, es), |news|, left - |es|)
            && SlotsTaken(cfg, r, es) && r.nNew == s.nNew
  {
    if es == [] {
      assert news + Kept(cfg, es) == news;
    } else {
      var n := |es| - 1;
      KeptPrefix(cfg, news, es);
      TriedsKeep(cfg, s, news, es[..n], left);
      assert es[..n] + [es[n]] == es;
      KeptStep(cfg, TriedEntries(cfg, s, es[..n]), news, es[..n], es[n], left - n);
    }
  }

  /** What an image must be for its entries to make a well-formed manager: those that are kept have
      different addresses, and times of success as their table asks for. */
  ghost predicate GoodImage(cfg: Config, img: Image) {
    && Matching(img) && GoodEntries(cfg, img)
  }

  ghost predicate GoodEntries(cfg: Config, img: Image) {
    && img.nNew == |img.news| && img.nTried == |img.trieds|
    && Different(img.news + Kept(cfg, img.trieds)) && Successes(img.news, 0) && Successes(Kept(cfg, img.trieds), 1)
  }

  /** The counters fit once all entries have been read. */
  lemma EntriesKeep(cfg: Config, img: Image)
    requires ConfigOk(cfg) && GoodEntries(cfg, img)
    ensures var r := EntriesLoaded(cfg, img);
            && Unplaced(cfg, r) && NewBelow(r, img.nNew) && r.nNew == img.nNew
            && Among(r, img.news + Kept(cfg, img.trieds))
  {
    var s0 := Tables(0, map[], map[], [], img.nTried, map[], img.nNew, map[]);
    NothingRead(cfg, s0);
    var all := img.news + Kept(cfg, img.trieds);
    assert img.news == all[..|img.news|];
    NewsKeep(cfg, s0, img.news, Usable(cfg, img));
    var r2 := NewEntries(cfg, s0, img.news, Usable(cfg, img)).(nIdCount := img.nNew);
    NewsDone(cfg, r2, img.news);
    TriedsKeep(cfg, r2, img.news, img.trieds, img.nTried);
    var r := TriedEntries(cfg, r2, img.trieds);
    assert r == Normal(r);
  }

  lemma NewsDone(cfg: Config, r: Tables, news: seq<DiskInfo>)
    requires NewsRead(cfg, r.(nIdCount := 0), news) && r.nIdCount == |news|
    ensures TriedsRead(cfg, r, news, |news|, r.nTried)
  {
    assert Normal(r) == Normal(r.(nIdCount := 0));
    forall k | 0 <= k < |news| && k in r.mapInfo ensures !r.mapInfo[k].fInTried { assert k !in TriedIds(r.mapInfo); }
  }

  // ---------------------------------------------------------------- the places of the "new" table

  /** Only the number of references may have grown. */
  ghost predicate Referred(i: Info, j: Info) {
    j == i.(nRefCount := j.nRefCount) && j.nRefCount >= i.nRefCount
  }

  /** The same entries, with at least the same references and places. */
  ghost predicate Further(s: Tables, r: Tables) {
    && r == s.(mapInfo := r.mapInfo, vvNew := r.vvNew) && r.mapInfo.Keys == s.mapInfo.Keys
    && (forall t :: t in s.vvNew ==> t in r.vvNew)
    && forall id {:trigger r.mapInfo[id]} :: id in s.mapInfo ==> Referred(s.mapInfo[id], r.mapInfo[id])
  }

  /** A number of a bucket has its place taken, if its entry has no place at all. */
  predicate Tended(cfg: Config, r: Tables, b: int, index: int, nNew: int) {
    0 <= index < nNew && index in r.mapInfo && r.mapInfo[index].nRefCount <= 0 ==>
      NewSlot(cfg, b, r.mapInfo[index].addr) in r.vvNew
  }

  lemma TendedStays(cfg: Config, s: Tables, r: Tables, b: int, index: int, nNew: int)
    requires Tended(cfg, s, b, index, nNew) && Further(s, r)
    ensures Tended(cfg, r, b, index, nNew)
  {
    if index in r.mapInfo { assert DiskOf(r.mapInfo[index]) == DiskOf(s.mapInfo[index]); }
  }

  lemma {:induction false} IndexesKeep(cfg: Config, s: Tables, b: int, indexes: seq<int>, usable: bool, nNew: int)
    requires Unplaced(cfg, s) && (usable ==> 0 <= b < cfg.newCount) && NewBelow(s, nNew)
    ensures var r := PlaceIndexes(cfg, s, b, indexes, usable, nNew);
            && Unplaced(cfg, r) && NewBelow(r, nNew) && Further(s, r)
            && (usable ==> forall j :: 0 <= j < |indexes| ==> Tended(cfg, r, b, indexes[j], nNew))
  {
    if indexes != [] {
      var n := |indexes| - 1;
      IndexesKeep(cfg, s, b, indexes[..n], usable, nNew);
      var q := PlaceIndexes(cfg, s, b, indexes[..n], usable, nNew);
      var r := PlaceIndex(cfg, q, b, indexes[n], usable, nNew);
      IndexKeeps(cfg, q, b, indexes[n], usable, nNew);
      IndexFurther(cfg, q, b, indexes[n], usable, nNew);
      if usable {
        forall j | 0 <= j < n ensures Tended(cfg, r, b, indexes[j], nNew) {
          assert indexes[..n][j] == indexes[j];
          TendedStays(cfg, q, r, b, indexes[j], nNew);
        }
      }
    }
  }

  lemma IndexFurther(cfg: Config, s: Tables, b: int, index: int, usable: bool, nNew: int)
    ensures var r := PlaceIndex(cfg, s, b, index, usable, nNew);
            Further(s, r) && (usable ==> Tended(cfg, r, b, index, nNew))
  {
  }

  ghost predicate BucketTended(cfg: Config, r: Tables, b: int, indexes: seq<int>, nNew: int) {
    forall j :: 0 <= j < |indexes| ==> Tended(cfg, r, b, indexes[j], nNew)
  }

  lemma {:induction false} BucketsKeep(cfg: Config, s: Tables, buckets: seq<seq<int>>, usable: bool, nNew: int)
    requires Unplaced(cfg, s) && NewBelow(s, nNew) && (usable ==> |buckets| <= cfg.newCount)
    ensures var r := PlaceBuckets(cfg, s, buckets, usable, nNew);
            && Unplaced(cfg, r) && Further(s, r) && NewBelow(r, nNew)
            && (usable ==> forall b :: 0 <= b < |buckets| ==> BucketTended(cfg, r, b, buckets[b], nNew))
  {
    if buckets != [] {
      var n := |buckets| - 1;
      BucketsKeep(cfg, s, buckets[..n], usable, nNew);
      var q := PlaceBuckets(cfg, s, buckets[..n], usable, nNew);
      var r := PlaceIndexes(cfg, q, n, buckets[n], usable, nNew);
      IndexesKeep(cfg, q, n, buckets[n], usable, nNew);
      if usable {
        forall b | 0 <= b < n ensures BucketTended(cfg, r, b, buckets[b], nNew) {
          assert buckets[..n][b] == buckets[b];
          forall j | 0 <= j < |buckets[b]| ensures Tended(cfg, r, b, buckets[b][j], nNew) {
            TendedStays(cfg, q, r, b, buckets[b][j], nNew);
          }
        }
      }
    }
  }

  // ---------------------------------------------------------------- pruning

  /** The "new" entries from number `n` on. */
  function From(s: Tables, n: int): set<int> {
    set id | id in NewIds(s.mapInfo) && id >= n
  }

  /** Entries below `n` that stay have references, and only entries without references went. */
  ghost predicate PrunedTo(cfg: Config, s: Tables, r: Tables, n: int) {
    && Almost(cfg, r, From(s, n), 0) && r.nIdCount == s.nIdCount && r.vvNew == s.vvNew && r.vvTried == s.vvTried
    && r.mapAddr.Keys <= s.mapAddr.Keys
    && (forall id :: id in r.mapInfo ==> id in s.mapInfo && SameButPlace(s.mapInfo[id], r.mapInfo[id]))
    && (forall id :: id in s.mapInfo && id !in r.mapInfo ==> s.mapInfo[id].nRefCount == 0 && !s.mapInfo[id].fInTried)
  }

  lemma PrunedOne(cfg: Config, s: Tables, q: Tables, n: nat)
    requires PrunedTo(cfg, s, q, n) && n in q.mapInfo && !q.mapInfo[n].fInTried && q.mapInfo[n].nRefCount == 0
    ensures CanDelete(q, n) && PrunedTo(cfg, s, Deleted(q, n), n + 1)
  {
    DeletedKeeps(cfg, q, n, From(s, n), 0);
    assert From(s, n) - {n} == From(s, n + 1);
  }

  lemma KeptOne(cfg: Config, s: Tables, q: Tables, n: nat)
    requires PrunedTo(cfg, s, q, n) && !(n in q.mapInfo && !q.mapInfo[n].fInTried && q.mapInfo[n].nRefCount == 0)
    ensures PrunedTo(cfg, s, q, n + 1)
  {
    forall id | id in q.mapInfo ensures InfoOk(cfg, q, id, From(s, n + 1)) { assert InfoOk(cfg, q, id, From(s, n)); }
  }

  lemma {:induction false} PrunedKeeps(cfg: Config, s: Tables, n: nat)
    requires Unplaced(cfg, s)
    ensures PrunedTo(cfg, s, Pruned(s, n), n)
  {
    if n == 0 {
      forall id | id in s.mapInfo ensures 0 <= id { assert InfoOk(cfg, s, id, NewIds(s.mapInfo)); }
      assert From(s, 0) == NewIds(s.mapInfo);
    } else {
      PrunedKeeps(cfg, s, n - 1);
      var q := Pruned(s, n - 1);
      if n - 1 in q.mapInfo && !q.mapInfo[n - 1].fInTried && q.mapInfo[n - 1].nRefCount == 0 {
        PrunedOne(cfg, s, q, n - 1);
      } else {
        KeptOne(cfg, s, q, n - 1);
      }
    }
  }

  // ---------------------------------------------------------------- any file, any configuration

  /** What is left is well formed, and holds nothing that the file did not. */
  lemma LoadKeeps(cfg: Config, img: Image)
    requires ConfigOk(cfg) && GoodImage(cfg, img)
    ensures Inv(cfg, Load(cfg, img)) && Among(Load(cfg, img), img.news + Kept(cfg, img.trieds))
  {
    EntriesKeep(cfg, img);
    var s := EntriesLoaded(cfg, img);
    BucketsKeep(cfg, s, img.buckets, Usable(cfg, img), img.nNew);
    var p := PlaceBuckets(cfg, s, img.buckets, Usable(cfg, img), img.nNew);
    var n := AsCount(p.nIdCount);
    PrunedKeeps(cfg, p, n);
    var r := Pruned(p, n);
    assert From(p, n) == {} by {
      forall id | id in p.mapInfo ensures id < p.nIdCount { assert InfoOk(cfg, p, id, NewIds(p.mapInfo)); }
    }
    assert forall id :: id in r.mapInfo ==> DiskOf(r.mapInfo[id]) == DiskOf(s.mapInfo[id]);
  }

  // ---------------------------------------------------------------- what is lost

  predicate Known(r: Tables, e: DiskInfo) {
    exists id :: id in r.mapInfo && DiskOf(r.mapInfo[id]) == e
  }

  /** Entry `k` of the "new" table has number `k`; if the buckets of the file cannot be used, the place
      for its source is taken. */
  ghost predicate NewAt(cfg: Config, r: Tables, news: seq<DiskInfo>, usable: bool, k: int)
    requires 0 <= k < |news|
  {
    && k in r.mapInfo && DiskOf(r.mapInfo[k]) == news[k]
    && (!usable ==> NewSlot(cfg, cfg.newBucket(news[k].addr, news[k].source), news[k].addr) in r.vvNew)
  }

  lemma NewAtStep(cfg: Config, r: Tables, es: seq<DiskInfo>, e: DiskInfo, usable: bool, k: nat)
    requires |r.vRandom| == |es| && k <= |es| && (k < |es| ==> NewAt(cfg, r, es, usable, k))
    ensures NewAt(cfg, NewEntry(cfg, r, e, usable), es + [e], usable, k)
  {
    assert (es + [e])[k] == if k < |es| then es[k] else e;
  }

  lemma {:induction false} NewsAt(cfg: Config, s: Tables, es: seq<DiskInfo>, usable: bool, k: nat)
    requires s.vRandom == [] && k < |es|
    ensures NewAt(cfg, NewEntries(cfg, s, es, usable), es, usable, k)
  {
    var n := |es| - 1;
    NewsCount(cfg, s, es[..n], usable);
    if k < n { NewsAt(cfg, s, es[..n], usable, k); }
    NewAtStep(cfg, NewEntries(cfg, s, es[..n], usable), es[..n], es[n], usable, k);
    assert es[..n] + [es[n]] == es;
  }

  lemma {:induction false} NewsCount(cfg: Config, s: Tables, es: seq<DiskInfo>, usable: bool)
    requires s.vRandom == []
    ensures |NewEntries(cfg, s, es, usable).vRandom| == |es|
  {
    if es != [] { NewsCount(cfg, s, es[..|es| - 1], usable); }
  }

  /** Entries of the "tried" table leave the others alone, and their places are taken afterwards. */
  lemma {:induction false} TriedsAt(cfg: Config, s: Tables, es: seq<DiskInfo>, id: int)
    requires s.nIdCount >= 0 && (id in s.mapInfo ==> id < s.nIdCount)
    ensures var r := TriedEntries(cfg, s, es);
            && r.vvNew == s.vvNew && r.nIdCount >= s.nIdCount
            && (id in s.mapInfo ==> id in r.mapInfo && r.mapInfo[id] == s.mapInfo[id])
            && (forall t :: t in s.vvTried ==> t in r.vvTried)
            && (forall k :: 0 <= k < |es| ==> TriedSlot(cfg, es[k].addr) in r.vvTried)
  {
    if es != [] {
      var n := |es| - 1;
      TriedsAt(cfg, s, es[..n], id);
      forall k | 0 <= k < n ensures TriedSlot(cfg, es[k].addr) in TriedEntries(cfg, s, es[..n]).vvTried {
        assert es[..n][k] == es[k];
      }
    }
  }

  /** Every place that an entry of the file could have is taken: an entry is lost only to another. */
  ghost predicate Crowded(cfg: Config, img: Image, r: Tables, k: int)
    requires 0 <= k < |img.news|
  {
    var e := img.news[k];
    if img.version == 1 && img.nUBuckets == cfg.newCount then
      forall b, j :: 0 <= b < |img.buckets| && 0 <= j < |img.buckets[b]| && img.buckets[b][j] == k ==>
        NewSlot(cfg, b, e.addr) in r.vvNew
    else NewSlot(cfg, cfg.newBucket(e.addr, e.source), e.addr) in r.vvNew
  }

  /** An entry of the "tried" table is lost only if another holds its place, and one of the "new" table
      only if others hold every place that the file or its source gives it. */
  lemma OnlyCollisionsLose(cfg: Config, img: Image)
    requires ConfigOk(cfg) && GoodImage(cfg, img)
    ensures var r := Load(cfg, img);
            && (forall k :: 0 <= k < |img.trieds| ==> TriedSlot(cfg, img.trieds[k].addr) in r.vvTried)
            && (forall k :: 0 <= k < |img.news| ==> Known(r, img.news[k]) || Crowded(cfg, img, r, k))
  {
    EntriesKeep(cfg, img);
    var s := EntriesLoaded(cfg, img);
    BucketsKeep(cfg, s, img.buckets, Usable(cfg, img), img.nNew);
    var p := PlaceBuckets(cfg, s, img.buckets, Usable(cfg, img), img.nNew);
    PrunedKeeps(cfg, p, AsCount(p.nIdCount));
    var r := Pruned(p, AsCount(p.nIdCount));
    EntriesAt(cfg, img);
    forall k | 0 <= k < |img.news| ensures Known(r, img.news[k]) || Crowded(cfg, img, r, k) {
      assert NewAt(cfg, s, img.news, Usable(cfg, img), k);
      assert DiskOf(p.mapInfo[k]) == img.news[k];
      if k in r.mapInfo {
        assert DiskOf(r.mapInfo[k]) == DiskOf(p.mapInfo[k]);
      } else {
        CrowdedOut(cfg, img, p, k);
      }
    }
  }

  lemma EntriesAt(cfg: Config, img: Image)
    requires ConfigOk(cfg) && GoodImage(cfg, img)
    ensures var r := EntriesLoaded(cfg, img);
            && (forall k :: 0 <= k < |img.trieds| ==> TriedSlot(cfg, img.trieds[k].addr) in r.vvTried)
            && (forall k :: 0 <= k < |img.news| ==> NewAt(cfg, r, img.news, Usable(cfg, img), k))
  {
    var usable := Usable(cfg, img);
    var s0 := Tables(0, map[], map[], [], img.nTried, map[], img.nNew, map[]);
    var r1 := NewEntries(cfg, s0, img.news, usable).(nIdCount := img.nNew);
    TriedsAt(cfg, r1, img.trieds, -1);
    forall k | 0 <= k < |img.news| ensures NewAt(cfg, TriedEntries(cfg, r1, img.trieds), img.news, usable, k) {
      NewsAt(cfg, s0, img.news, usable, k);
      TriedsAt(cfg, r1, img.trieds, k);
    }
  }

  lemma CrowdedOut(cfg: Config, img: Image, p: Tables, k: nat)
    requires Matching(img) && img.nNew >= 0 && k < |img.news| && NewAt(cfg, p, img.news, Usable(cfg, img), k)
             && p.mapInfo[k].nRefCount == 0
    requires Usable(cfg, img) ==> forall b :: 0 <= b < |img.buckets| ==>
             BucketTended(cfg, p, b, img.buckets[b], img.nNew)
    ensures Crowded(cfg, img, p, k)
  {
    if Usable(cfg, img) {
      forall b, j | 0 <= b < |img.buckets| && 0 <= j < |img.buckets[b]| && img.buckets[b][j] == k
        ensures NewSlot(cfg, b, img.news[k].addr) in p.vvNew
      {
        assert BucketTended(cfg, p, b, img.buckets[b], img.nNew);
        assert Tended(cfg, p, b, img.buckets[b][j], img.nNew);
        assert DiskOf(p.mapInfo[k]).addr == p.mapInfo[k].addr;
      }
    }
  }

  // ---------------------------------------------------------------- files of well-formed managers

  lemma EntriesSucceed(cfg: Config, s: Tables, ids: seq<int>, first: nat)
    requires Inv(cfg, s) && forall k :: 0 <= k < |ids| ==>
             ids[k] in s.mapInfo && (k >= first ==> s.mapInfo[ids[k]].fInTried)
    ensures forall k :: 0 <= k < |ids| ==> Entries(s.mapInfo, ids)[k].nLastSuccess >= if k < first then 0 else 1
  {
    forall k | 0 <= k < |ids| ensures Entries(s.mapInfo, ids)[k].nLastSuccess >= if k < first then 0 else 1 {
      assert InfoOk(cfg, s, ids[k], {});
    }
  }

  lemma GoodParts(news: seq<DiskInfo>, trieds: seq<DiskInfo>)
    requires forall k :: 0 <= k < |news| + |trieds| ==> (news + trieds)[k].nLastSuccess >= if k < |news| then 0 else 1
    ensures Successes(news, 0) && Successes(trieds, 1)
  {
    var all := news + trieds;
    forall k | 0 <= k < |news| ensures news[k].nLastSuccess >= 0 { assert news[k] == all[k]; }
    forall k | 0 <= k < |trieds| ensures trieds[k].nLastSuccess >= 1 { assert trieds[k] == all[|news| + k]; }
  }

  /** Leaving out entries keeps the others different. */
  lemma {:induction false} KeptIsGood(cfg: Config, news: seq<DiskInfo>, es: seq<DiskInfo>)
    requires Different(news + es) && Successes(es, 1)
    ensures Different(news + Kept(cfg, es)) && Successes(Kept(cfg, es), 1)
  {
    if es == [] {
      assert Kept(cfg, es) == es;
    } else {
      var n, less := |es| - 1, Kept(cfg, es[..|es| - 1]);
      var all := news + es;
      assert all[..|all| - 1] == news + es[..n];
      KeptIsGood(cfg, news, es[..n]);
      KeptIsPart(cfg, es[..n]);
      forall i | 0 <= i < |news + less| ensures (news + less)[i].addr.ip != es[n].addr.ip {
        if i >= |news| {
          assert less[i - |news|] in es[..n];
          var k :| 0 <= k < n && es[k] == less[i - |news|];
          assert all[|news| + k] == es[k] && all[|news| + n] == es[n];
        } else {
          assert all[i] == news[i] && all[|news| + n] == es[n];
        }
      }
      if !PlaceTaken(cfg, es[..n], es[n]) {
        assert news + Kept(cfg, es) == (news + less) + [es[n]];
      } else {
        assert Kept(cfg, es) == less;
      }
    }
  }

  /** The file of a well-formed manager, under any parameters. */
  lemma ImageIsGood(cfg: Config, key: int, s: Tables, cfg': Config)
    requires Inv(cfg, s)
    ensures GoodImage(cfg', ImageOf(cfg, key, s))
  {
    FileIdsFacts(cfg, s);
    FileEntries(s, AsCount(s.nIdCount));
    EntriesUnlike(cfg, s, FileIds(s), s.nNew);
    EntriesSucceed(cfg, s, FileIds(s), s.nNew);
    var img := ImageOf(cfg, key, s);
    GoodParts(img.news, img.trieds);
    KeptIsGood(cfg', img.news, img.trieds);
  }

  lemma PartOfAll(news: seq<DiskInfo>, part: seq<DiskInfo>, trieds: seq<DiskInfo>, e: DiskInfo)
    requires e in news + part && forall x :: x in part ==> x in trieds
    ensures e in news + trieds
  {
    if e in part { assert e in trieds; }
  }

  lemma WasKnown(cfg: Config, key: int, s: Tables, cfg': Config, e: DiskInfo)
    requires Inv(cfg, s)
    requires var img := ImageOf(cfg, key, s); e in img.news + Kept(cfg', img.trieds)
    ensures Known(s, e)
  {
    var img := ImageOf(cfg, key, s);
    KeptIsPart(cfg', img.trieds);
    PartOfAll(img.news, Kept(cfg', img.trieds), img.trieds, e);
    FileEntries(s, AsCount(s.nIdCount));
    var all := img.news + img.trieds;
    var k :| 0 <= k < |all| && all[k] == e;
    assert all[k] == Entries(s.mapInfo, FileIds(s))[k];
    var id := FileIds(s)[k];
    assert id in s.mapInfo && DiskOf(s.mapInfo[id]) == e;
  }

  /** The parameters may change without breaking the file: whatever the bucket counts, the bucket size
      and the hashes are now, what was written reads as a well-formed manager of entries that were
      there before. */
  lemma ParametersMayChange(cfg: Config, key: int, s: Tables, cfg': Config)
    requires Inv(cfg, s) && ConfigOk(cfg')
    ensures var r := Load(cfg', ImageOf(cfg, key, s));
            && Inv(cfg', r)
            && forall id :: id in r.mapInfo ==> Known(s, DiskOf(r.mapInfo[id]))
  {
    var img := ImageOf(cfg, key, s);
    ImageIsGood(cfg, key, s, cfg');
    LoadKeeps(cfg', img);
    var r := Load(cfg', img);
    forall id | id in r.mapInfo ensures Known(s, DiskOf(r.mapInfo[id])) {
      WasKnown(cfg, key, s, cfg', DiskOf(r.mapInfo[id]));
    }
  }

  // ---------------------------------------------------------------- reading over entries that are left

  ghost predicate Grown(s: Tables, r: Tables) {
    s.mapInfo.Keys <= r.mapInfo.Keys
  }

  lemma {:induction false} NewsGrow(cfg: Config, s: Tables, es: seq<DiskInfo>, usable: bool)
    ensures Grown(s, NewEntries(cfg, s, es, usable))
  {
    if es != [] { NewsGrow(cfg, s, es[..|es| - 1], usable); }
  }

  lemma {:induction false} TriedsGrow(cfg: Config, s: Tables, es: seq<DiskInfo>)
    ensures Grown(s, TriedEntries(cfg, s, es)) && s.nIdCount <= TriedEntries(cfg, s, es).nIdCount <= s.nIdCount + |es|
  {
    if es != [] { TriedsGrow(cfg, s, es[..|es| - 1]); }
  }

  lemma {:induction false} IndexesGrow(cfg: Config, s: Tables, b: int, indexes: seq<int>, usable: bool, nNew: int)
    ensures var r := PlaceIndexes(cfg, s, b, indexes, usable, nNew); Grown(s, r) && r.nIdCount == s.nIdCount
  {
    if indexes != [] { IndexesGrow(cfg, s, b, indexes[..|indexes| - 1], usable, nNew); }
  }

  lemma {:induction false} BucketsGrow(cfg: Config, s: Tables, buckets: seq<seq<int>>, usable: bool, nNew: int)
    ensures var r := PlaceBuckets(cfg, s, buckets, usable, nNew); Grown(s, r) && r.nIdCount == s.nIdCount
  {
    if buckets != [] {
      var b := |buckets| - 1;
      BucketsGrow(cfg, s, buckets[..b], usable, nNew);
      IndexesGrow(cfg, PlaceBuckets(cfg, s, buckets[..b], usable, nNew), b, buckets[b], usable, nNew);
    }
  }

  lemma {:induction false} PrunedLeaves(s: Tables, n: nat, id: int)
    requires id in s.mapInfo && id >= n
    ensures id in Pruned(s, n).mapInfo && Pruned(s, n).nIdCount == s.nIdCount
  {
    if n > 0 { PrunedLeaves(s, n - 1, id); }
  }

  /** Reading over a manager that still has entries gives a broken one, unless the file has enough entries
      to overwrite them: clearing does not remove them. */
  lemma LeftoverBreaks(cfg: Config, s: Tables, img: Image, id: int)
    requires id in s.mapInfo && id >= |img.news| + |img.trieds| && Matching(img)
    ensures !Inv(cfg, LoadOver(cfg, Cleared(s), img))
  {
    var usable := Usable(cfg, img);
    var s0 := Cleared(s).(nNew := img.nNew, nTried := img.nTried);
    NewsGrow(cfg, s0, img.news, usable);
    var s1 := NewEntries(cfg, s0, img.news, usable).(nIdCount := img.nNew);
    TriedsGrow(cfg, s1, img.trieds);
    var s2 := TriedEntries(cfg, s1, img.trieds);
    BucketsGrow(cfg, s2, img.buckets, usable, img.nNew);
    var s3 := PlaceBuckets(cfg, s2, img.buckets, usable, img.nNew);
    assert id in s0.mapInfo.Keys;
    PrunedLeaves(s3, AsCount(s3.nIdCount), id);
    var r := Pruned(s3, AsCount(s3.nIdCount));
    if Inv(cfg, r) { IdsBelow(cfg, r); }
  }
}
