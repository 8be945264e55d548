/** What a stream that breaks off leaves in a new address manager (`Unserialize` in `src/addrman.h`), and
    for which streams that is well formed. */
module AddrManHalfRead {
  import opened Options
  import opened Sets
  import opened AddrTables
  import opened AddrManDisk
  import opened AddrManLoad
  import opened AddrManReload

  // ---------------------------------------------------------------- which numbers of the buckets count

  function PositionOf(cfg: Config, news: seq<DiskInfo>, b: int, k: int): int
    requires 0 <= k < |news|
  {
    cfg.position(true, b, news[k].addr)
  }

  /** Whether number `j` of bucket `b` gets its entry a place: the entry has fewer references than allowed,
      and no earlier number of the bucket has got that place. */
  predicate Wins(cfg: Config, news: seq<DiskInfo>, bs: seq<seq<int>>, b: nat, j: nat)
    requires b < |bs| && j < |bs[b]|
    decreases b, j, 1
  {
    var k := bs[b][j];
    && 0 <= k < |news| && Won(cfg, news, bs, k, b, j) < MAX_REFERENCES
    && forall i :: 0 <= i < j && Wins(cfg, news, bs, b, i) ==>
         0 <= bs[b][i] < |news| && PositionOf(cfg, news, b, bs[b][i]) != PositionOf(cfg, news, b, k)
  }

  /** How many places the numbers before number `j` of bucket `b` get entry `k`. */
  function Won(cfg: Config, news: seq<DiskInfo>, bs: seq<seq<int>>, k: int, b: nat, j: nat): nat
    requires b <= |bs| && (b < |bs| ==> j <= |bs[b]|) && (b == |bs| ==> j == 0)
    decreases b, j, 0
  {
    if j > 0 then Won(cfg, news, bs, k, b, j - 1) + if bs[b][j - 1] == k && Wins(cfg, news, bs, b, j - 1) then 1 else 0
    else if b > 0 then Won(cfg, news, bs, k, b - 1, |bs[b - 1]|)
    else 0
  }

  /** Whether position `p` of bucket `b` is taken by the first `j` numbers. */
  predicate TakenBy(cfg: Config, news: seq<DiskInfo>, bs: seq<seq<int>>, b: nat, j: nat, p: int)
    requires b < |bs| && j <= |bs[b]|
  {
    exists i :: 0 <= i < j && Wins(cfg, news, bs, b, i) && PositionOf(cfg, news, b, bs[b][i]) == p
  }

  /** Every entry gets a place. */
  predicate AllWin(cfg: Config, news: seq<DiskInfo>, bs: seq<seq<int>>) {
    forall k :: 0 <= k < |news| ==> Won(cfg, news, bs, k, |bs|, 0) > 0
  }

  // ---------------------------------------------------------------- the loop over the buckets does this

  ghost predicate EntryPlayed(cfg: Config, news: seq<DiskInfo>, bs: seq<seq<int>>, r: Tables, b: nat, j: nat, k: nat)
    requires b <= |bs| && (b < |bs| ==> j <= |bs[b]|) && (b == |bs| ==> j == 0) && k < |news|
  {
    k in r.mapInfo && r.mapInfo[k].addr == news[k].addr && r.mapInfo[k].nRefCount == Won(cfg, news, bs, k, b, j)
  }

  ghost predicate EntriesPlayed(cfg: Config, news: seq<DiskInfo>, bs: seq<seq<int>>, r: Tables, b: nat, j: nat)
    requires b <= |bs| && (b < |bs| ==> j <= |bs[b]|) && (b == |bs| ==> j == 0)
  {
    forall k {:trigger EntryPlayed(cfg, news, bs, r, b, j, k)} :: 0 <= k < |news| ==>
      EntryPlayed(cfg, news, bs, r, b, j, k)
  }

  /** Positions of bucket `b` are taken by the numbers before number `j`, and those of later buckets free. */
  ghost predicate SlotsPlayed(cfg: Config, news: seq<DiskInfo>, bs: seq<seq<int>>, r: Tables, b: nat, j: nat)
    requires b < |bs| && j <= |bs[b]|
  {
    && (forall p {:trigger TakenBy(cfg, news, bs, b, j, p)} :: (b, p) in r.vvNew <==> TakenBy(cfg, news, bs, b, j, p))
    && forall t :: t in r.vvNew ==> t.0 <= b
  }

  lemma TakenByOne(cfg: Config, news: seq<DiskInfo>, bs: seq<seq<int>>, b: nat, j: nat, p: int)
    requires b < |bs| && j < |bs[b]|
    ensures TakenBy(cfg, news, bs, b, j + 1, p) <==>
              TakenBy(cfg, news, bs, b, j, p) || (Wins(cfg, news, bs, b, j) && PositionOf(cfg, news, b, bs[b][j]) == p)
  {
  }

  /** One number. */
  lemma NumberPlayed(cfg: Config, news: seq<DiskInfo>, bs: seq<seq<int>>, r: Tables, b: nat, j: nat)
    requires b < |bs| && j < |bs[b]| && EntriesPlayed(cfg, news, bs, r, b, j) && SlotsPlayed(cfg, news, bs, r, b, j)
    ensures var q := PlaceIndex(cfg, r, b, bs[b][j], true, |news|);
            EntriesPlayed(cfg, news, bs, q, b, j + 1) && SlotsPlayed(cfg, news, bs, q, b, j + 1)
  {
    var k, q := bs[b][j], PlaceIndex(cfg, r, b, bs[b][j], true, |news|);
    if 0 <= k < |news| {
      assert EntryPlayed(cfg, news, bs, r, b, j, k);
      var p := PositionOf(cfg, news, b, k);
      assert (b, p) in r.vvNew <==> TakenBy(cfg, news, bs, b, j, p);
      assert Wins(cfg, news, bs, b, j) <==> (b, p) !in r.vvNew && r.mapInfo[k].nRefCount < MAX_REFERENCES;
    }
    var next := j + 1;
    forall x | 0 <= x < |news| ensures EntryPlayed(cfg, news, bs, q, b, next, x) {
      assert EntryPlayed(cfg, news, bs, r, b, j, x);
    }
    forall p ensures (b, p) in q.vvNew <==> TakenBy(cfg, news, bs, b, j + 1, p) {
      TakenByOne(cfg, news, bs, b, j, p);
      assert (b, p) in r.vvNew <==> TakenBy(cfg, news, bs, b, j, p);
    }
  }

  ghost predicate SlotsBefore(r: Tables, b: int) {
    forall t :: t in r.vvNew ==> t.0 < b
  }

  lemma {:induction false} BucketPlayed(cfg: Config, news: seq<DiskInfo>, bs: seq<seq<int>>, r: Tables, b: nat, j: nat)
    requires b < |bs| && j <= |bs[b]| && EntriesPlayed(cfg, news, bs, r, b, 0) && SlotsBefore(r, b)
    ensures var q := PlaceIndexes(cfg, r, b, bs[b][..j], true, |news|);
            EntriesPlayed(cfg, news, bs, q, b, j) && SlotsPlayed(cfg, news, bs, q, b, j)
    decreases j
  {
    if j == 0 {
      forall p ensures (b, p) in r.vvNew <==> TakenBy(cfg, news, bs, b, j, p) { }
    } else {
      BucketPlayed(cfg, news, bs, r, b, j - 1);
      assert bs[b][..j][..j - 1] == bs[b][..j - 1];
      NumberPlayed(cfg, news, bs, PlaceIndexes(cfg, r, b, bs[b][..j - 1], true, |news|), b, j - 1);
    }
  }

  lemma {:induction false} BucketsPlayed(cfg: Config, news: seq<DiskInfo>, bs: seq<seq<int>>, r: Tables, n: nat)
    requires n <= |bs| && EntriesPlayed(cfg, news, bs, r, 0, 0) && SlotsBefore(r, 0)
    ensures var q := PlaceBuckets(cfg, r, bs[..n], true, |news|);
            EntriesPlayed(cfg, news, bs, q, n, 0)
            && SlotsBefore(q, n)
    decreases n
  {
    if n > 0 {
      var b := n - 1;
      BucketsPlayed(cfg, news, bs, r, b);
      assert bs[..n][..b] == bs[..b];
      assert bs[b][..|bs[b]|] == bs[b];
      var before := PlaceBuckets(cfg, r, bs[..b], true, |news|);
      var q := PlaceIndexes(cfg, before, b, bs[b], true, |news|);
      BucketPlayed(cfg, news, bs, before, b, |bs[b]|);
      forall k | 0 <= k < |news| ensures EntryPlayed(cfg, news, bs, q, n, 0, k) {
        assert EntryPlayed(cfg, news, bs, q, b, |bs[b]|, k);
      }
    }
  }

  // ---------------------------------------------------------------- the condition without recursion

  /** The number is that of an entry, and no earlier number of the bucket is that of another entry with the
      same position. */
  predicate FirstClaim(cfg: Config, news: seq<DiskInfo>, bs: seq<seq<int>>, b: nat, j: nat)
    requires b < |bs| && j < |bs[b]|
  {
    && 0 <= bs[b][j] < |news|
    && forall i :: 0 <= i < j && 0 <= bs[b][i] < |news| && bs[b][i] != bs[b][j] ==>
         PositionOf(cfg, news, b, bs[b][i]) != PositionOf(cfg, news, b, bs[b][j])
  }

  ghost predicate Claims(cfg: Config, news: seq<DiskInfo>, bs: seq<seq<int>>, k: nat) {
    exists b: nat, j: nat :: b < |bs| && j < |bs[b]| && bs[b][j] == k && FirstClaim(cfg, news, bs, b, j)
  }

  /** How often a number occurs before number `j` of bucket `b`. */
  function Occurrences(bs: seq<seq<int>>, k: int, b: nat, j: nat): nat
    requires b <= |bs| && (b < |bs| ==> j <= |bs[b]|) && (b == |bs| ==> j == 0)
    decreases b, j
  {
    if j > 0 then Occurrences(bs, k, b, j - 1) + if bs[b][j - 1] == k then 1 else 0
    else if b > 0 then Occurrences(bs, k, b - 1, |bs[b - 1]|)
    else 0
  }

  lemma {:induction false} WonAtMost(cfg: Config, news: seq<DiskInfo>, bs: seq<seq<int>>, k: int, b: nat, j: nat)
    requires b <= |bs| && (b < |bs| ==> j <= |bs[b]|) && (b == |bs| ==> j == 0)
    ensures Won(cfg, news, bs, k, b, j) <= Occurrences(bs, k, b, j)
    decreases b, j
  {
    if j > 0 {
      WonAtMost(cfg, news, bs, k, b, j - 1);
    } else if b > 0 {
      WonAtMost(cfg, news, bs, k, b - 1, |bs[b - 1]|);
    }
  }

  /** Later numbers take nothing away. */
  lemma {:induction false} CountsGrow(cfg: Config, news: seq<DiskInfo>, bs: seq<seq<int>>, k: int, b: nat, j: nat,
    b': nat, j': nat)
    requires b <= |bs| && (b < |bs| ==> j <= |bs[b]|) && (b == |bs| ==> j == 0)
    requires b' <= |bs| && (b' < |bs| ==> j' <= |bs[b']|) && (b' == |bs| ==> j' == 0)
    requires b < b' || (b == b' && j <= j')
    ensures Won(cfg, news, bs, k, b, j) <= Won(cfg, news, bs, k, b', j')
    ensures Occurrences(bs, k, b, j) <= Occurrences(bs, k, b', j')
    decreases b', j'
  {
    if b != b' || j != j' {
      if j' > 0 {
        CountsGrow(cfg, news, bs, k, b, j, b', j' - 1);
      } else {
        CountsGrow(cfg, news, bs, k, b, j, b' - 1, |bs[b' - 1]|);
      }
    }
  }

  /** A first claim always gets its entry a place, unless it has one already. */
  lemma ClaimWins(cfg: Config, news: seq<DiskInfo>, bs: seq<seq<int>>, b: nat, j: nat)
    requires b < |bs| && j < |bs[b]| && FirstClaim(cfg, news, bs, b, j)
    ensures Won(cfg, news, bs, bs[b][j], |bs|, 0) > 0
  {
    var k := bs[b][j];
    if i :| 0 <= i < j && Wins(cfg, news, bs, b, i) && bs[b][i] == k {
      assert Won(cfg, news, bs, k, b, i + 1) > 0;
      CountsGrow(cfg, news, bs, k, b, i + 1, |bs|, 0);
    } else if Won(cfg, news, bs, k, b, j) >= MAX_REFERENCES {
      CountsGrow(cfg, news, bs, k, b, j, |bs|, 0);
    } else {
      assert Wins(cfg, news, bs, b, j);
      assert Won(cfg, news, bs, k, b, j + 1) > 0;
      CountsGrow(cfg, news, bs, k, b, j + 1, |bs|, 0);
    }
  }

  /** An entry that gets places gets one of them somewhere. */
  lemma {:induction false} WonWhere(cfg: Config, news: seq<DiskInfo>, bs: seq<seq<int>>, k: int, b: nat, j: nat)
    returns (c: nat, i: nat)
    requires b <= |bs| && (b < |bs| ==> j <= |bs[b]|) && (b == |bs| ==> j == 0) && Won(cfg, news, bs, k, b, j) > 0
    ensures c < |bs| && i < |bs[c]| && bs[c][i] == k && Wins(cfg, news, bs, c, i)
    decreases b, j
  {
    if j > 0 {
      if bs[b][j - 1] == k && Wins(cfg, news, bs, b, j - 1) {
        c, i := b, j - 1;
      } else {
        c, i := WonWhere(cfg, news, bs, k, b, j - 1);
      }
    } else {
      c, i := WonWhere(cfg, news, bs, k, b - 1, |bs[b - 1]|);
    }
  }

  /** No number occurs more often than an entry may have references. */
  ghost predicate FewOccurrences(bs: seq<seq<int>>, n: nat) {
    forall k :: 0 <= k < n ==> Occurrences(bs, k, |bs|, 0) <= MAX_REFERENCES
  }

  /** Without full entries, a position that is claimed has been got by somebody. */
  lemma ClaimedIsTaken(cfg: Config, news: seq<DiskInfo>, bs: seq<seq<int>>, b: nat, i: nat)
    requires b < |bs| && i < |bs[b]| && 0 <= bs[b][i] < |news| && FewOccurrences(bs, |news|)
    ensures TakenBy(cfg, news, bs, b, i + 1, PositionOf(cfg, news, b, bs[b][i]))
  {
    var k := bs[b][i];
    if !Wins(cfg, news, bs, b, i) {
      WonAtMost(cfg, news, bs, k, b, i);
      CountsGrow(cfg, news, bs, k, b, i + 1, |bs|, 0);
      assert Occurrences(bs, k, b, i + 1) == Occurrences(bs, k, b, i) + 1;
      assert Won(cfg, news, bs, k, b, i) < MAX_REFERENCES;
      var x :| 0 <= x < i && Wins(cfg, news, bs, b, x)
               && !(0 <= bs[b][x] < |news| && PositionOf(cfg, news, b, bs[b][x]) != PositionOf(cfg, news, b, k));
    }
  }

  /** Every entry gets a place if each has a first claim somewhere; if no number occurs more than eight
      times, that is also necessary. */
  lemma AllWinWhen(cfg: Config, news: seq<DiskInfo>, bs: seq<seq<int>>)
    ensures (forall k :: 0 <= k < |news| ==> Claims(cfg, news, bs, k)) ==> AllWin(cfg, news, bs)
    ensures FewOccurrences(bs, |news|) ==>
            (AllWin(cfg, news, bs) <==> forall k :: 0 <= k < |news| ==> Claims(cfg, news, bs, k))
  {
    forall k | 0 <= k < |news| && Claims(cfg, news, bs, k) ensures Won(cfg, news, bs, k, |bs|, 0) > 0 {
      var b: nat, j: nat :| b < |bs| && j < |bs[b]| && bs[b][j] == k && FirstClaim(cfg, news, bs, b, j);
      ClaimWins(cfg, news, bs, b, j);
    }
    if FewOccurrences(bs, |news|) {
      forall k | 0 <= k < |news| && Won(cfg, news, bs, k, |bs|, 0) > 0 ensures Claims(cfg, news, bs, k) {
        WinnerClaims(cfg, news, bs, k);
      }
    }
  }

  lemma WinnerClaims(cfg: Config, news: seq<DiskInfo>, bs: seq<seq<int>>, k: nat)
    requires FewOccurrences(bs, |news|) && k < |news| && Won(cfg, news, bs, k, |bs|, 0) > 0
    ensures Claims(cfg, news, bs, k)
  {
    var b, j := WonWhere(cfg, news, bs, k, |bs|, 0);
    forall i | 0 <= i < j && 0 <= bs[b][i] < |news| && bs[b][i] != k
      ensures PositionOf(cfg, news, b, bs[b][i]) != PositionOf(cfg, news, b, k)
    {
      ClaimedIsTaken(cfg, news, bs, b, i);
    }
    assert FirstClaim(cfg, news, bs, b, j);
  }

  // ---------------------------------------------------------------- the entries, whatever the file says

  function SourceSlot(cfg: Config, e: DiskInfo): Slot {
    NewSlot(cfg, cfg.newBucket(e.addr, e.source), e.addr)
  }

  predicate SourceTaken(cfg: Config, es: seq<DiskInfo>, e: DiskInfo) {
    exists i :: 0 <= i < |es| && SourceSlot(cfg, es[i]) == SourceSlot(cfg, e)
  }

  predicate SourcesDiffer(cfg: Config, es: seq<DiskInfo>) {
    forall i, j :: 0 <= i < j < |es| ==> SourceSlot(cfg, es[i]) != SourceSlot(cfg, es[j])
  }

  /** The references of entry `k` of the "new" table before any bucket is read. */
  function FirstReferences(cfg: Config, es: seq<DiskInfo>, usable: bool, k: nat): int
    requires k < |es|
  {
    if usable || SourceTaken(cfg, es[..k], es[k]) then 0 else 1
  }

  ghost predicate NewIs(cfg: Config, r: Tables, es: seq<DiskInfo>, usable: bool, k: nat)
    requires k < |es|
  {
    && k in r.mapInfo && DiskOf(r.mapInfo[k]) == es[k] && !r.mapInfo[k].fInTried
    && r.mapInfo[k].nRefCount == FirstReferences(cfg, es, usable, k)
  }

  ghost predicate SourcesTaken(cfg: Config, r: Tables, es: seq<DiskInfo>, usable: bool) {
    && (usable ==> r.vvNew == map[])
    && (!usable ==> forall e: DiskInfo {:trigger SourceTaken(cfg, es, e)} :: SourceSlot(cfg, e) in r.vvNew <==>
       SourceTaken(cfg, es, e))
  }

  ghost predicate NewsAre(cfg: Config, r: Tables, es: seq<DiskInfo>, usable: bool) {
    && |r.vRandom| == |es| && SourcesTaken(cfg, r, es, usable)
    && (forall k {:trigger NewIs(cfg, r, es, usable, k)} :: 0 <= k < |es| ==> NewIs(cfg, r, es, usable, k))
    && (forall id :: id in r.mapInfo ==> 0 <= id < |es|)
  }

  lemma SourceStep(cfg: Config, es: seq<DiskInfo>, e: DiskInfo, x: DiskInfo)
    ensures SourceTaken(cfg, es + [e], x) <==> SourceTaken(cfg, es, x) || SourceSlot(cfg, e) == SourceSlot(cfg, x)
  {
    var more := es + [e];
    assert more[|es|] == e;
    if SourceTaken(cfg, es, x) {
      var i :| 0 <= i < |es| && SourceSlot(cfg, es[i]) == SourceSlot(cfg, x);
      assert more[i] == es[i];
    }
  }

  lemma SourcesStep(cfg: Config, r: Tables, es: seq<DiskInfo>, e: DiskInfo, usable: bool)
    requires SourcesTaken(cfg, r, es, usable)
    ensures SourcesTaken(cfg, NewEntry(cfg, r, e, usable), es + [e], usable)
  {
    if !usable {
      var more := es + [e];
      forall x: DiskInfo ensures SourceSlot(cfg, x) in NewEntry(cfg, r, e, usable).vvNew <==>
        SourceTaken(cfg, more, x) {
        SourceStep(cfg, es, e, x);
        assert SourceSlot(cfg, x) in r.vvNew <==> SourceTaken(cfg, es, x);
        assert SourceSlot(cfg, e) in r.vvNew <==> SourceTaken(cfg, es, e);
      }
    }
  }

  lemma NewsStepAre(cfg: Config, r: Tables, es: seq<DiskInfo>, e: DiskInfo, usable: bool)
    requires NewsAre(cfg, r, es, usable)
    ensures NewsAre(cfg, NewEntry(cfg, r, e, usable), es + [e], usable)
  {
    var more, q := es + [e], NewEntry(cfg, r, e, usable);
    SourcesStep(cfg, r, es, e, usable);
    forall k | 0 <= k < |more| ensures NewIs(cfg, q, more, usable, k) {
      assert more[..k] == es[..k];
      if k < |es| {
        assert NewIs(cfg, r, es, usable, k);
      } else {
        assert es[..k] == es;
        assert !usable ==> (SourceSlot(cfg, e) in r.vvNew <==> SourceTaken(cfg, es, e));
      }
    }
  }

  lemma {:induction false} NewsRemain(cfg: Config, s: Tables, es: seq<DiskInfo>, usable: bool)
    requires s == FRESH.(nNew := s.nNew, nTried := s.nTried)
    ensures NewsAre(cfg, NewEntries(cfg, s, es, usable), es, usable)
    ensures NewEntries(cfg, s, es, usable).vvTried == map[]
  {
    if es != [] {
      var n := |es| - 1;
      NewsRemain(cfg, s, es[..n], usable);
      NewsStepAre(cfg, NewEntries(cfg, s, es[..n], usable), es[..n], es[n], usable);
      assert es[..n] + [es[n]] == es;
    }
  }

  ghost predicate TriedIs(r: Tables, first: nat, kept: seq<DiskInfo>, k: nat)
    requires k < |kept|
  {
    first + k in r.mapInfo && DiskOf(r.mapInfo[first + k]) == kept[k] && r.mapInfo[first + k].fInTried
  }

  /** The state after the entries of both tables. */
  ghost predicate AllAre(cfg: Config, r: Tables, news: seq<DiskInfo>, kept: seq<DiskInfo>, usable: bool) {
    && (forall k {:trigger NewIs(cfg, r, news, usable, k)} :: 0 <= k < |news| ==> NewIs(cfg, r, news, usable, k))
    && (forall k {:trigger TriedIs(r, |news|, kept, k)} :: 0 <= k < |kept| ==> TriedIs(r, |news|, kept, k))
    && (forall id :: id in r.mapInfo && !r.mapInfo[id].fInTried ==> 0 <= id < |news|)
    && r.nIdCount == |news| + |kept| && (forall id :: id in r.mapInfo ==> id < r.nIdCount)
       && (usable ==> r.vvNew == map[])
  }

  lemma TriedsStepAre(cfg: Config, r: Tables, news: seq<DiskInfo>, kept: seq<DiskInfo>, e: DiskInfo, usable: bool)
    requires AllAre(cfg, r, news, kept, usable) && TriedSlot(cfg, e.addr) !in r.vvTried
    ensures AllAre(cfg, TriedEntry(cfg, r, e), news, kept + [e], usable)
  {
    var q, more := TriedEntry(cfg, r, e), kept + [e];
    forall k | 0 <= k < |news| ensures NewIs(cfg, q, news, usable, k) { assert NewIs(cfg, r, news, usable, k); }
    forall k | 0 <= k < |more| ensures TriedIs(q, |news|, more, k) {
      if k < |kept| { assert TriedIs(r, |news|, kept, k); }
    }
  }

  lemma LostStepAre(cfg: Config, r: Tables, news: seq<DiskInfo>, kept: seq<DiskInfo>, e: DiskInfo, usable: bool)
    requires AllAre(cfg, r, news, kept, usable) && TriedSlot(cfg, e.addr) in r.vvTried
    ensures AllAre(cfg, TriedEntry(cfg, r, e), news, kept, usable)
  {
    var q := TriedEntry(cfg, r, e);
    forall k | 0 <= k < |news| ensures NewIs(cfg, q, news, usable, k) { assert NewIs(cfg, r, news, usable, k); }
    forall k | 0 <= k < |kept| ensures TriedIs(q, |news|, kept, k) { assert TriedIs(r, |news|, kept, k); }
  }

  lemma {:induction false} TriedsRemain(cfg: Config, s: Tables, news: seq<DiskInfo>, es: seq<DiskInfo>, usable: bool)
    requires AllAre(cfg, s, news, [], usable) && s.vvTried == map[]
    ensures var r := TriedEntries(cfg, s, es); AllAre(cfg, r, news, Kept(cfg, es), usable) && SlotsTaken(cfg, r, es)
  {
    if es != [] {
      var n := |es| - 1;
      var r := TriedEntries(cfg, s, es[..n]);
      TriedsRemain(cfg, s, news, es[..n], usable);
      SlotsStep(cfg, r, es[..n], es[n]);
      assert es[..n] + [es[n]] == es;
      if PlaceTaken(cfg, es[..n], es[n]) {
        LostStepAre(cfg, r, news, Kept(cfg, es[..n]), es[n], usable);
        assert Kept(cfg, es) == Kept(cfg, es[..n]);
      } else {
        TriedsStepAre(cfg, r, news, Kept(cfg, es[..n]), es[n], usable);
      }
    }
  }

  lemma EntriesRemain(cfg: Config, img: Image)
    requires img.nNew == |img.news|
    ensures AllAre(cfg, EntriesLoaded(cfg, img), img.news, Kept(cfg, img.trieds), Usable(cfg, img))
  {
    var s0 := FRESH.(nNew := img.nNew, nTried := img.nTried);
    var usable := Usable(cfg, img);
    NewsRemain(cfg, s0, img.news, usable);
    var r := NewEntries(cfg, s0, img.news, usable);
    var s := r.(nIdCount := img.nNew);
    forall k | 0 <= k < |img.news| ensures NewIs(cfg, s, img.news, usable, k) {
      assert NewIs(cfg, r, img.news, usable, k);
    }
    forall id | id in s.mapInfo ensures !s.mapInfo[id].fInTried { assert NewIs(cfg, r, img.news, usable, id); }
    TriedsRemain(cfg, s, img.news, img.trieds, usable);
  }

  // ---------------------------------------------------------------- breaking off in the buckets

  lemma {:induction false} IndexesFurther(cfg: Config, s: Tables, b: int, indexes: seq<int>, usable: bool, nNew: int)
    ensures Further(s, PlaceIndexes(cfg, s, b, indexes, usable, nNew))
    ensures !usable ==> PlaceIndexes(cfg, s, b, indexes, usable, nNew) == s
  {
    if indexes != [] {
      var n := |indexes| - 1;
      IndexesFurther(cfg, s, b, indexes[..n], usable, nNew);
      IndexFurther(cfg, PlaceIndexes(cfg, s, b, indexes[..n], usable, nNew), b, indexes[n], usable, nNew);
    }
  }

  lemma {:induction false} BucketsFurther(cfg: Config, s: Tables, bs: seq<seq<int>>, usable: bool, nNew: int)
    ensures Further(s, PlaceBuckets(cfg, s, bs, usable, nNew))
    ensures !usable ==> PlaceBuckets(cfg, s, bs, usable, nNew) == s
  {
    if bs != [] {
      var n := |bs| - 1;
      BucketsFurther(cfg, s, bs[..n], usable, nNew);
      IndexesFurther(cfg, PlaceBuckets(cfg, s, bs[..n], usable, nNew), n, bs[n], usable, nNew);
    }
  }

  /** Entries of a well-formed manager have different addresses and sound times. */
  lemma RemainGood(cfg: Config, r: Tables, q: Tables, img: Image)
    requires img.nNew == |img.news| && img.nTried == |img.trieds|
    requires AllAre(cfg, r, img.news, Kept(cfg, img.trieds), Usable(cfg, img)) && Further(r, q) && Inv(cfg, q)
    ensures GoodEntries(cfg, img)
  {
    var kept := Kept(cfg, img.trieds);
    var all := img.news + kept;
    forall k | 0 <= k < |all| ensures EntryIn(cfg, q, all, |img.news|, k) {
      if k < |img.news| {
        assert NewIs(cfg, r, img.news, Usable(cfg, img), k);
      } else {
        assert TriedIs(r, |img.news|, kept, k - |img.news|);
      }
      assert Referred(r.mapInfo[k], q.mapInfo[k]);
      assert InfoOk(cfg, q, k, {});
    }
    forall k | 0 <= k < |img.news| ensures img.news[k].nLastSuccess >= 0 {
      assert EntryIn(cfg, q, all, |img.news|, k) && all[k] == img.news[k];
    }
    forall k | 0 <= k < |kept| ensures kept[k].nLastSuccess >= 1 {
      var j := |img.news| + k;
      assert EntryIn(cfg, q, all, |img.news|, j) && all[j] == kept[k];
    }
    forall i, j | 0 <= i < j < |all| ensures all[i].addr.ip != all[j].addr.ip {
      assert EntryIn(cfg, q, all, |img.news|, i) && EntryIn(cfg, q, all, |img.news|, j);
    }
  }

  ghost predicate EntryIn(cfg: Config, q: Tables, all: seq<DiskInfo>, first: nat, k: nat)
    requires k < |all|
  {
    && Get(q.mapAddr, all[k].addr.ip) == Some(k) && all[k].nLastSuccess >= if k < first then 0 else 1
  }

  /** All entries of the "new" table have a place. */
  ghost predicate AllPlaced(s: Tables) {
    forall id :: id in s.mapInfo && !s.mapInfo[id].fInTried ==> s.mapInfo[id].nRefCount > 0
  }

  lemma PlacedIsInv(cfg: Config, s: Tables)
    requires Unplaced(cfg, s)
    ensures AllPlaced(s) ==> Inv(cfg, s)
  {
    if AllPlaced(s) {
      forall id | id in s.mapInfo ensures InfoOk(cfg, s, id, {}) { assert InfoOk(cfg, s, id, NewIds(s.mapInfo)); }
    }
  }

  lemma InvIsPlaced(cfg: Config, s: Tables)
    requires Inv(cfg, s)
    ensures AllPlaced(s)
  {
    forall id | id in s.mapInfo && !s.mapInfo[id].fInTried ensures s.mapInfo[id].nRefCount > 0 {
      assert InfoOk(cfg, s, id, {});
    }
  }

  /** Every entry of the "new" table gets a place: from the buckets, or else for its source. */
  predicate EachPlaced(cfg: Config, img: Image, bs: seq<seq<int>>) {
    if Usable(cfg, img) then AllWin(cfg, img.news, bs) else SourcesDiffer(cfg, img.news)
  }

  lemma EachPlacedUsable(cfg: Config, img: Image, bs: seq<seq<int>>, r: Tables)
    requires Usable(cfg, img) && img.nNew == |img.news| && AllAre(cfg, r, img.news, Kept(cfg, img.trieds), true)
    ensures AllPlaced(PlaceBuckets(cfg, r, bs, true, img.nNew)) <==> AllWin(cfg, img.news, bs)
  {
    var q := PlaceBuckets(cfg, r, bs, true, img.nNew);
    forall k | 0 <= k < |img.news| ensures EntryPlayed(cfg, img.news, bs, r, 0, 0, k) {
      assert NewIs(cfg, r, img.news, true, k);
    }
    BucketsPlayed(cfg, img.news, bs, r, |bs|);
    assert bs[..|bs|] == bs;
    BucketsFurther(cfg, r, bs, true, img.nNew);
    forall k | 0 <= k < |img.news|
      ensures k in q.mapInfo && !q.mapInfo[k].fInTried && q.mapInfo[k].nRefCount == Won(cfg, img.news, bs, k, |bs|, 0)
    {
      assert EntryPlayed(cfg, img.news, bs, q, |bs|, 0, k) && NewIs(cfg, r, img.news, true, k);
      assert Referred(r.mapInfo[k], q.mapInfo[k]);
    }
    forall id | id in q.mapInfo && !q.mapInfo[id].fInTried ensures 0 <= id < |img.news| {
      assert Referred(r.mapInfo[id], q.mapInfo[id]);
    }
  }

  lemma EachPlacedBySource(cfg: Config, img: Image, r: Tables)
    requires AllAre(cfg, r, img.news, Kept(cfg, img.trieds), false)
    ensures AllPlaced(r) <==> SourcesDiffer(cfg, img.news)
  {
    forall k | 0 <= k < |img.news|
      ensures k in r.mapInfo && !r.mapInfo[k].fInTried && NewIs(cfg, r, img.news, false, k) {
      assert NewIs(cfg, r, img.news, false, k);
    }
    if SourcesDiffer(cfg, img.news) {
      forall k | 0 <= k < |img.news| ensures !SourceTaken(cfg, img.news[..k], img.news[k]) { }
    }
    if AllPlaced(r) {
      forall i, j | 0 <= i < j < |img.news| ensures SourceSlot(cfg, img.news[i]) != SourceSlot(cfg, img.news[j]) {
        assert NewIs(cfg, r, img.news, false, j);
        assert img.news[..j][i] == img.news[i];
      }
    }
  }

  /** Once all entries have been read, what the buckets leave is well formed exactly if the entries are good
      and each of those of the "new" table gets a place. */
  lemma BucketsLeave(cfg: Config, img: Image, bs: seq<seq<int>>)
    requires ConfigOk(cfg) && img.nNew == |img.news| && img.nTried == |img.trieds|
    requires Usable(cfg, img) ==> |bs| <= cfg.newCount
    ensures Inv(cfg, PlaceBuckets(cfg, EntriesLoaded(cfg, img), bs, Usable(cfg, img), img.nNew)) <==>
              GoodEntries(cfg, img) && EachPlaced(cfg, img, bs)
  {
    var r, usable := EntriesLoaded(cfg, img), Usable(cfg, img);
    var q := PlaceBuckets(cfg, r, bs, usable, img.nNew);
    EntriesRemain(cfg, img);
    BucketsFurther(cfg, r, bs, usable, img.nNew);
    if usable { EachPlacedUsable(cfg, img, bs, r); } else { EachPlacedBySource(cfg, img, r); }
    assert AllPlaced(q) <==> EachPlaced(cfg, img, bs);
    if Inv(cfg, q) {
      InvIsPlaced(cfg, q);
      RemainGood(cfg, r, q, img);
    }
    if GoodEntries(cfg, img) {
      EntriesKeep(cfg, img);
      BucketsKeep(cfg, r, bs, usable, img.nNew);
      PlacedIsInv(cfg, q);
    }
  }

  // ---------------------------------------------------------------- any stream

  /** The numbers of the buckets that are read, those of the bucket in which the stream breaks off
      included. */
  function NumbersRead(t: seq<Token>, nUBuckets: nat): (bs: seq<seq<int>>)
    ensures |bs| <= nUBuckets
  {
    var (buckets, rest) := ReadMany(ReadBucket, t, nUBuckets);
    if |buckets| < nUBuckets then buckets + [BucketStart(rest)] else buckets
  }

  /** What is read of an image after its header. */
  function PartRead(img: Image, t: seq<Token>): Image {
    var (news, t1) := ReadMany(ReadEntry, t, AsCount(img.nNew));
    var (trieds, t2) := ReadMany(ReadEntry, t1, AsCount(img.nTried));
    img.(news := news, trieds := trieds, buckets := NumbersRead(t2, AsCount(img.nUBuckets)))
  }

  /** The condition on a stream that breaks off after the header: all entries are there, they are good, and
      each of those of the "new" table gets a place. */
  ghost predicate SoundLists(cfg: Config, img: Image) {
    GoodEntries(cfg, img) && EachPlaced(cfg, img, img.buckets)
  }

  /** The condition on a stream that breaks off: in the header, that no counter other than zero was read. */
  ghost predicate StillSound(cfg: Config, t: seq<Token>) {
    var nums := HeaderNums(t);
    if |nums| < 6 then (|nums| >= 4 ==> nums[3] == 0) && (|nums| >= 5 ==> nums[4] == 0)
    else SoundLists(cfg, PartRead(ReadHeader(t).value.0, ReadHeader(t).value.1))
  }

  lemma CountersOnly(cfg: Config, nNew: int, nTried: int)
    ensures Inv(cfg, FRESH.(nNew := nNew, nTried := nTried)) <==> nNew == 0 && nTried == 0
  {
    assert NewIds(FRESH.mapInfo) == {} && TriedIds(FRESH.mapInfo) == {};
  }

  lemma {:induction false} TriedsCounters(cfg: Config, s: Tables, es: seq<DiskInfo>)
    ensures var r := TriedEntries(cfg, s, es);
            r.nNew == s.nNew && r.nTried <= s.nTried && |TriedIds(r.mapInfo)| <= |TriedIds(s.mapInfo)| + |es|
  {
    if es != [] {
      var r := TriedEntries(cfg, s, es[..|es| - 1]);
      var q := TriedEntry(cfg, r, es[|es| - 1]);
      TriedsCounters(cfg, s, es[..|es| - 1]);
      SubsetIsSmaller(TriedIds(q.mapInfo), TriedIds(r.mapInfo) + {r.nIdCount});
    }
  }

  lemma IdsPlaced(cfg: Config, s: Tables, id: int)
    requires Infos(cfg, s, {}) && id in s.mapInfo
    ensures s.mapInfo[id].nRandomPos >= 0
  {
    assert InfoOk(cfg, s, id, {});
  }

  /** The entry in which the stream breaks off has no place in the permutation. */
  lemma NewsBreakOff(cfg: Config, img: Image, part: DiskInfo, t: seq<Token>)
    requires |ReadMany(ReadEntry, t, AsCount(img.nNew)).0| < AsCount(img.nNew)
    ensures !BodyRead(cfg, img, part, t).1 && !Inv(cfg, BodyRead(cfg, img, part, t).0)
  {
    var r := BodyRead(cfg, img, part, t).0;
    if Inv(cfg, r) { IdsPlaced(cfg, r, |ReadMany(ReadEntry, t, AsCount(img.nNew)).0|); }
  }

  /** Without all entries of the "tried" table its counter is too high. */
  lemma TriedsBreakOff(cfg: Config, img: Image, part: DiskInfo, t: seq<Token>)
    requires var (news, t1) := ReadMany(ReadEntry, t, AsCount(img.nNew));
             |news| == AsCount(img.nNew) && |ReadMany(ReadEntry, t1, AsCount(img.nTried)).0| < AsCount(img.nTried)
    ensures !BodyRead(cfg, img, part, t).1 && !Inv(cfg, BodyRead(cfg, img, part, t).0)
  {
    var (news, t1) := ReadMany(ReadEntry, t, AsCount(img.nNew));
    var s0 := FRESH.(nNew := img.nNew, nTried := img.nTried);
    NewsRemain(cfg, s0, news, Usable(cfg, img));
    var s1 := NewEntries(cfg, s0, news, Usable(cfg, img));
    forall id | id in s1.mapInfo ensures !s1.mapInfo[id].fInTried { assert NewIs(cfg, s1, news, Usable(cfg, img), id); }
    assert TriedIds(s1.mapInfo) == {};
    TriedsCounters(cfg, s1.(nIdCount := img.nNew), ReadMany(ReadEntry, t1, AsCount(img.nTried)).0);
  }

  /** A negative counter never fits. */
  lemma NegativeCounters(cfg: Config, img: Image, bs: seq<seq<int>>)
    requires img.nNew < 0 || img.nTried < 0
    ensures !Inv(cfg, PlaceBuckets(cfg, EntriesLoaded(cfg, img), bs, Usable(cfg, img), img.nNew))
  {
    var s0 := FRESH.(nNew := img.nNew, nTried := img.nTried);
    NewsCounters(cfg, s0, img.news, Usable(cfg, img));
    TriedsCounters(cfg, NewEntries(cfg, s0, img.news, Usable(cfg, img)).(nIdCount := img.nNew), img.trieds);
    BucketsFurther(cfg, EntriesLoaded(cfg, img), bs, Usable(cfg, img), img.nNew);
  }

  lemma {:induction false} NewsCounters(cfg: Config, s: Tables, es: seq<DiskInfo>, usable: bool)
    ensures NewEntries(cfg, s, es, usable).nNew == s.nNew && NewEntries(cfg, s, es, usable).nTried == s.nTried
  {
    if es != [] { NewsCounters(cfg, s, es[..|es| - 1], usable); }
  }

  /** If the entries are all there, the buckets decide. */
  lemma BucketsBreakOff(cfg: Config, img: Image, part: DiskInfo, t: seq<Token>)
    requires ConfigOk(cfg) && !BodyRead(cfg, img, part, t).1
    requires |PartRead(img, t).news| == AsCount(img.nNew) && |PartRead(img, t).trieds| == AsCount(img.nTried)
    ensures Inv(cfg, BodyRead(cfg, img, part, t).0) <==> SoundLists(cfg, PartRead(img, t))
  {
    var all := PartRead(img, t);
    var (_, t1) := ReadMany(ReadEntry, t, AsCount(img.nNew));
    var (_, t2) := ReadMany(ReadEntry, t1, AsCount(img.nTried));
    var (buckets, t3) := ReadMany(ReadBucket, t2, AsCount(img.nUBuckets));
    assert all.buckets == buckets + [BucketStart(t3)];
    assert all.buckets[..|buckets|] == buckets;
    assert BodyRead(cfg, img, part, t).0 ==
      PlaceBuckets(cfg, EntriesLoaded(cfg, all), all.buckets, Usable(cfg, all), all.nNew);
    if img.nNew < 0 || img.nTried < 0 {
      NegativeCounters(cfg, all, all.buckets);
    } else {
      BucketsLeave(cfg, all, all.buckets);
    }
  }

  /** A stream that breaks off, wherever that is, leaves a well-formed manager exactly if it meets the
      condition. */
  lemma HalfRead(cfg: Config, part: DiskInfo, t: seq<Token>)
    requires ConfigOk(cfg) && !FileRead(cfg, part, t).1
    ensures Inv(cfg, FileRead(cfg, part, t).0) <==> StillSound(cfg, t)
  {
    var nums := HeaderNums(t);
    if |nums| < 6 {
      CountersOnly(cfg, if |nums| < 4 then 0 else nums[3], if |nums| < 5 then 0 else nums[4]);
    } else {
      var img, t0 := ReadHeader(t).value.0, ReadHeader(t).value.1;
      var all := PartRead(img, t0);
      if |all.news| < AsCount(img.nNew) {
        NewsBreakOff(cfg, img, part, t0);
      } else if |all.trieds| < AsCount(img.nTried) {
        TriedsBreakOff(cfg, img, part, t0);
      } else {
        BucketsBreakOff(cfg, img, part, t0);
      }
    }
  }

  // ---------------------------------------------------------------- a file that is cut off in its buckets

  /** Each bucket is the beginning of the one in its place. */
  ghost predicate Beginnings(a: seq<seq<int>>, bs: seq<seq<int>>) {
    |a| <= |bs| && forall b :: 0 <= b < |a| ==> a[b] <= bs[b]
  }

  lemma {:induction false} NumsBreakOff(xs: seq<int>, n: nat)
    requires n >= |xs|
    ensures ReadMany(ReadNum, WriteMany(WriteNum, xs), n) == (xs, [])
  {
    if xs != [] {
      NumsBreakOff(xs[1..], n - 1);
      assert WriteMany(WriteNum, xs)[1..] == WriteMany(WriteNum, xs[1..]);
      assert [xs[0]] + xs[1..] == xs;
    }
  }

  /** A bucket that is cut off is not read, but its first numbers are. */
  lemma BucketBreaksOff(b: seq<int>, m: nat)
    requires m < |WriteBucket(b)|
    ensures var t := WriteBucket(b)[..m]; ReadBucket(t) == None && BucketStart(t) <= b
  {
    var t := WriteBucket(b)[..m];
    if m > 0 {
      NumsWritten(b);
      NumsWritten(b[..m - 1]);
      assert t[1..] == WriteMany(WriteNum, b[..m - 1]);
      NumsBreakOff(b[..m - 1], |b|);
    }
  }

  lemma {:induction false} BucketsCut(bs: seq<seq<int>>, m: nat)
    requires m < |WriteMany(WriteBucket, bs)|
    ensures var t := WriteMany(WriteBucket, bs)[..m];
            |ReadMany(ReadBucket, t, |bs|).0| < |bs| && Beginnings(NumbersRead(t, |bs|), bs)
  {
    var head, t := WriteBucket(bs[0]), WriteMany(WriteBucket, bs)[..m];
    if m < |head| {
      assert t == head[..m];
      BucketBreaksOff(bs[0], m);
      assert NumbersRead(t, |bs|) == [BucketStart(t)];
    } else {
      var more := WriteMany(WriteBucket, bs[1..])[..m - |head|];
      assert t == head + more;
      BucketInverse();
      assert ReadBucket(head + more) == Some((bs[0], more));
      BucketsCut(bs[1..], m - |head|);
      var rest := NumbersRead(more, |bs| - 1);
      assert NumbersRead(t, |bs|) == [bs[0]] + rest;
      forall b | 0 <= b < |rest| + 1 ensures ([bs[0]] + rest)[b] <= bs[b] {
        if b > 0 { assert rest[b - 1] <= bs[1..][b - 1]; }
      }
    }
  }

  /** Numbers of entries at increasing positions below `n`. */
  ghost predicate Ascending(cfg: Config, news: seq<DiskInfo>, b: nat, xs: seq<int>, n: int) {
    && (forall j :: 0 <= j < |xs| ==> 0 <= xs[j] < |news| && PositionOf(cfg, news, b, xs[j]) < n)
    && forall i, j :: 0 <= i < j < |xs| ==> PositionOf(cfg, news, b, xs[i]) < PositionOf(cfg, news, b, xs[j])
  }

  /** The numbers of a bucket in the file are those of "new" entries at increasing positions. */
  lemma {:induction false} IndexesAscend(cfg: Config, key: int, s: Tables, b: nat, n: nat)
    requires ConfigOk(cfg) && Inv(cfg, s) && b < cfg.newCount
    ensures Ascending(cfg, ImageOf(cfg, key, s).news, b, Indexes(s, b, n), n)
  {
    if n > 0 {
      var less := Indexes(s, b, n - 1);
      IndexesAscend(cfg, key, s, b, n - 1);
      if (b, n - 1) in s.vvNew {
        IndexHere(cfg, key, s, b, n - 1);
      } else {
        assert Indexes(s, b, n) == less;
      }
    }
  }

  lemma IndexHere(cfg: Config, key: int, s: Tables, b: nat, p: nat)
    requires ConfigOk(cfg) && Inv(cfg, s) && (b, p) in s.vvNew
    ensures var news, k := ImageOf(cfg, key, s).news, Rank(s.mapInfo, s.vvNew[(b, p)]);
            k < |news| && PositionOf(cfg, news, b, k) == p
  {
    var id := s.vvNew[(b, p)];
    assert NewOk(cfg, s, (b, p));
    RankIsPlace(cfg, s, id);
    FileIdsFacts(cfg, s);
    var ns := Listed(s.mapInfo, false, AsCount(s.nIdCount));
    assert ns[Rank(s.mapInfo, id)] == id;
  }

  ghost predicate Occurs(bs: seq<seq<int>>, k: int) {
    exists b: nat, j: nat :: b < |bs| && j < |bs[b]| && bs[b][j] == k
  }

  /** In the buckets of a file every number is a first claim. */
  lemma AllOccur(cfg: Config, key: int, s: Tables, bs: seq<seq<int>>)
    requires ConfigOk(cfg) && Inv(cfg, s) && Beginnings(bs, ImageOf(cfg, key, s).buckets)
    ensures var news := ImageOf(cfg, key, s).news; AllWin(cfg, news, bs) <==> forall k :: 0 <= k < |news| ==>
            Occurs(bs, k)
  {
    var news := ImageOf(cfg, key, s).news;
    forall k: nat | k < |news| && Occurs(bs, k) ensures Claims(cfg, news, bs, k) {
      var b: nat, j: nat :| b < |bs| && j < |bs[b]| && bs[b][j] == k;
      IndexesAscend(cfg, key, s, b, cfg.bucketSize);
      assert bs[b] <= Indexes(s, b, cfg.bucketSize);
      assert FirstClaim(cfg, news, bs, b, j);
    }
    AllWinWhen(cfg, news, bs);
    forall k | 0 <= k < |news| && Won(cfg, news, bs, k, |bs|, 0) > 0 ensures Occurs(bs, k) {
      var b, j := WonWhere(cfg, news, bs, k, |bs|, 0);
    }
  }

  /** The file of a manager without all but the first `m` words of its buckets. */
  function Cut(img: Image, m: nat): seq<Token>
    requires m <= |WriteMany(WriteBucket, img.buckets)|
  {
    Header(img) + (WriteMany(WriteEntry,
      img.news) + (WriteMany(WriteEntry, img.trieds) + WriteMany(WriteBucket, img.buckets)[..m]))
  }

  lemma CutRead(img: Image, m: nat)
    requires img.version != 0 && Matching(img) && m < |WriteMany(WriteBucket, img.buckets)|
    ensures var t, words := Cut(img, m), WriteMany(WriteBucket, img.buckets)[..m];
            && t == Format(img)[..|t|] && |HeaderNums(t)| == 6 && ReadHeader(t).Some?
            && var (head, t0) := ReadHeader(t).value;
               PartRead(head, t0) == img.(buckets := NumbersRead(words, |img.buckets|))
  {
    var words := WriteMany(WriteBucket, img.buckets)[..m];
    var t0 := WriteMany(WriteEntry, img.news) + (WriteMany(WriteEntry, img.trieds) + words);
    HeaderRead(img, t0);
    EntryInverse();
    ManyInverse(ReadEntry, WriteEntry, img.news, WriteMany(WriteEntry, img.trieds) + words);
    ManyInverse(ReadEntry, WriteEntry, img.trieds, words);
  }

  /** The file of a well-formed manager, cut off in its buckets, reads as a well-formed manager exactly if every
      number of an entry of the "new" table occurs before the cut. */
  lemma CutFile(cfg: Config, key: int, s: Tables, part: DiskInfo, m: nat)
    requires ConfigOk(cfg) && Inv(cfg, s) && m < |WriteMany(WriteBucket, ImageOf(cfg, key, s).buckets)|
    ensures var img := ImageOf(cfg, key, s);
            var t, bs := Cut(img, m), NumbersRead(WriteMany(WriteBucket, img.buckets)[..m], cfg.newCount);
            && t == Format(img)[..|t|] && !FileRead(cfg, part, t).1
            && (Inv(cfg, FileRead(cfg, part, t).0) <==> forall k :: 0 <= k < s.nNew ==> Occurs(bs, k))
  {
    var img := ImageOf(cfg, key, s);
    ImageMatches(cfg, key, s);
    ImageIsGood(cfg, key, s, cfg);
    CutRead(img, m);
    BucketsCut(img.buckets, m);
    CutFails(cfg, img, part, m);
    HalfRead(cfg, part, Cut(img, m));
    AllOccur(cfg, key, s, NumbersRead(WriteMany(WriteBucket, img.buckets)[..m], cfg.newCount));
  }

  lemma CutFails(cfg: Config, img: Image, part: DiskInfo, m: nat)
    requires img.version != 0 && Matching(img) && m < |WriteMany(WriteBucket, img.buckets)|
    ensures !FileRead(cfg, part, Cut(img, m)).1
  {
    var words := WriteMany(WriteBucket, img.buckets)[..m];
    BucketsCut(img.buckets, m);
    HeaderRead(img, WriteMany(WriteEntry, img.news) + (WriteMany(WriteEntry, img.trieds) + words));
    EntryInverse();
    ManyInverse(ReadEntry, WriteEntry, img.news, WriteMany(WriteEntry, img.trieds) + words);
    ManyInverse(ReadEntry, WriteEntry, img.trieds, words);
  }

  // ---------------------------------------------------------------- a concrete stream

  /** The header of a file that promises one "new" entry, and that entry. */
  function OneEntry(cfg: Config, key: int, e: DiskInfo): seq<Token> {
    Header(Image(1, key, 1, 0, cfg.newCount, [], [], [])) + [Entry(e)]
  }

  lemma OneEntryRead(cfg: Config, key: int, e: DiskInfo, rest: seq<Token>)
    ensures var t, head := OneEntry(cfg, key, e) + rest, Image(1, key, 1, 0, cfg.newCount, [], [], []);
            && |HeaderNums(t)| == 6 && ReadHeader(t) == Some((head, [Entry(e)] + rest))
            && PartRead(head, [Entry(e)] + rest) == head.(news := [e], buckets := NumbersRead(rest, cfg.newCount))
  {
    var head := Image(1, key, 1, 0, cfg.newCount, [], [], []);
    HeaderRead(head, [Entry(e)] + rest);
    assert OneEntry(cfg, key, e) + rest == Header(head) + ([Entry(e)] + rest);
    EntryInverse();
    ManyInverse(ReadEntry, WriteEntry, [e], rest);
    assert WriteMany(WriteEntry, [e]) == [Entry(e)];
  }

  /** Whether what follows one entry is whole, and what is left if it is not. */
  lemma OneEntryLeaves(cfg: Config, key: int, e: DiskInfo, part: DiskInfo, rest: seq<Token>)
    requires ConfigOk(cfg) && |ReadMany(ReadBucket, rest, cfg.newCount).0| < cfg.newCount
    ensures var t := OneEntry(cfg, key, e) + rest;
            && !FileRead(cfg, part, t).1
            && (Inv(cfg, FileRead(cfg, part, t).0) <==>
                  e.nLastSuccess >= 0 && AllWin(cfg, [e], NumbersRead(rest, cfg.newCount)))
  {
    var t := OneEntry(cfg, key, e) + rest;
    OneEntryRead(cfg, key, e, rest);
    EntryInverse();
    ManyInverse(ReadEntry, WriteEntry, [e], rest);
    assert WriteMany(WriteEntry, [e]) == [Entry(e)];
    HalfRead(cfg, part, t);
    assert [e] + Kept(cfg, []) == [e];
  }

  /** A stream that ends after its one entry leaves a broken manager: the entry has no place. */
  lemma NumberMissing(cfg: Config, key: int, e: DiskInfo, part: DiskInfo)
    requires ConfigOk(cfg)
    ensures !FileRead(cfg, part, OneEntry(cfg, key, e)).1 && !Inv(cfg, FileRead(cfg, part, OneEntry(cfg, key, e)).0)
  {
    BucketsThere(cfg, e);
    var rest: seq<Token> := [];
    OneEntryLeaves(cfg, key, e, part, rest);
    assert OneEntry(cfg, key, e) + rest == OneEntry(cfg, key, e);
    var bs := NumbersRead(rest, cfg.newCount);
    if Won(cfg, [e], bs, 0, |bs|, 0) > 0 {
      var b, j := WonWhere(cfg, [e], bs, 0, |bs|, 0);
      assert bs == [[]];
    }
  }

  lemma BucketsThere(cfg: Config, e: DiskInfo)
    requires ConfigOk(cfg)
    ensures cfg.newCount > 0
  {
    assert 0 <= cfg.newBucket(e.addr, e.source) < cfg.newCount;
  }

  /** If it ends only after the number of that entry, with a bucket that promises more, it leaves a well-formed
      one. */
  lemma NumberThere(cfg: Config, key: int, e: DiskInfo, part: DiskInfo)
    requires ConfigOk(cfg) && e.nLastSuccess >= 0
    ensures var t := OneEntry(cfg, key, e) + [Num(2), Num(0)];
            !FileRead(cfg, part, t).1 && Inv(cfg, FileRead(cfg, part, t).0)
  {
    BucketsThere(cfg, e);
    var rest := [Num(2), Num(0)];
    assert rest[1..] == [Num(0)];
    NumsBreakOff([0], 2);
    assert WriteMany(WriteNum, [0]) == [Num(0)];
    assert ReadBucket(rest) == None && BucketStart(rest) == [0];
    var bs := NumbersRead(rest, cfg.newCount);
    assert bs == [[0]];
    assert FirstClaim(cfg, [e], bs, 0, 0);
    ClaimWins(cfg, [e], bs, 0, 0);
    OneEntryLeaves(cfg, key, e, part, rest);
  }
}
