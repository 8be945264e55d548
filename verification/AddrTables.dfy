/** The tables of the address manager (`CAddrMan` in `src/addrman.h` and `src/addrman.cpp`) as a
    value, the updates of its methods, and their invariant.

    Bucket numbers and positions come from keyed hashes, which are not modelled; the table sizes are
    parameters. */
module AddrTables {
  import opened Options

  type Ip = nat

  datatype Service = Service(ip: Ip, port: nat)

  /** A bucket and a position in it. */
  type Slot = (int, int)

  datatype Info = Info(
    addr: Service,
    source: Ip,
    nTime: int,
    nServices: set<nat>,
    nLastTry: int,
    nLastSuccess: int,
    nAttempts: int,
    nRefCount: int,
    fInTried: bool,
    nRandomPos: int)

  /** A slot that is in a table holds an id; a slot that is not holds -1. */
  datatype Tables = Tables(
    nIdCount: int,
    mapInfo: map<int, Info>,
    mapAddr: map<Ip, int>,
    vRandom: seq<int>,
    nTried: int,
    vvTried: map<Slot, int>,
    nNew: int,
    vvNew: map<Slot, int>)

  const FRESH := Tables(0, map[], map[], [], 0, map[], 0, map[])

  datatype Config = Config(
    newCount: nat,
    triedCount: nat,
    bucketSize: nat,
    newBucket: (Service, Ip) -> int,
    triedBucket: Service -> int,
    position: (bool, int, Service) -> int,
    routable: Ip -> bool)

  const MAX_REFERENCES: int := 8

  ghost predicate ConfigOk(cfg: Config) {
    && (forall a, src :: 0 <= cfg.newBucket(a, src) < cfg.newCount)
    && (forall a :: 0 <= cfg.triedBucket(a) < cfg.triedCount)
    && (forall n, b, a :: 0 <= cfg.position(n, b, a) < cfg.bucketSize)
  }

  /** Nothing is asked of the hashes but that they stay within the tables. */
  lemma AnyHashes(cfg: Config)
    requires forall a, src :: !(cfg.newBucket(a, src) < 0 || cfg.newBucket(a, src) >= cfg.newCount)
    requires forall a :: !(cfg.triedBucket(a) < 0 || cfg.triedBucket(a) >= cfg.triedCount)
    requires forall n, b, a :: !(cfg.position(n, b, a) < 0 || cfg.position(n, b, a) >= cfg.bucketSize)
    ensures ConfigOk(cfg)
  {
  }

  function NewSlot(cfg: Config, b: int, a: Service): Slot {
    (b, cfg.position(true, b, a))
  }

  function TriedSlot(cfg: Config, a: Service): Slot {
    (cfg.triedBucket(a), cfg.position(false, cfg.triedBucket(a), a))
  }

  /** The "new" buckets that hold an id at its position. */
  function Buckets(cfg: Config, vvNew: map<Slot, int>, id: int, a: Service): set<int> {
    set b | 0 <= b < cfg.newCount && Get(vvNew, NewSlot(cfg, b, a)) == Some(id)
  }

  function NewIds(m: map<int, Info>): set<int> { set id | id in m && !m[id].fInTried }

  function TriedIds(m: map<int, Info>): set<int> { set id | id in m && m[id].fInTried }

  // ---------------------------------------------------------------- the invariant

  /** `limbo` are the ids that are in neither table for the moment. */
  ghost predicate InfoOk(cfg: Config, s: Tables, id: int, limbo: set<int>)
    requires id in s.mapInfo
  {
    var i := s.mapInfo[id];
    && 0 <= id < s.nIdCount
    && Get(s.mapAddr, i.addr.ip) == Some(id)
    && 0 <= i.nRandomPos < |s.vRandom| && s.vRandom[i.nRandomPos] == id
    && i.nLastTry >= 0 && i.nLastSuccess >= 0
    && i.nRefCount == |Buckets(cfg, s.vvNew, id, i.addr)|
    && (if i.fInTried then
          id !in limbo && i.nLastSuccess != 0 && i.nRefCount == 0 && Get(s.vvTried, TriedSlot(cfg, i.addr)) == Some(id)
        else
          i.nRefCount <= MAX_REFERENCES && (id !in limbo ==> i.nRefCount > 0))
  }

  /** The invariant is used entry by entry, where a proof asks for it. */
  ghost predicate Infos(cfg: Config, s: Tables, limbo: set<int>) {
    forall id {:trigger InfoOk(cfg, s, id, limbo)} :: id in s.mapInfo ==> InfoOk(cfg, s, id, limbo)
  }

  ghost predicate AddressOk(s: Tables, ip: Ip)
    requires ip in s.mapAddr
  {
    s.mapAddr[ip] in s.mapInfo && s.mapInfo[s.mapAddr[ip]].addr.ip == ip
  }

  ghost predicate Addresses(s: Tables) {
    forall ip {:trigger AddressOk(s, ip)} :: ip in s.mapAddr ==> AddressOk(s, ip)
  }

  ghost predicate PlaceOk(s: Tables, p: int)
    requires 0 <= p < |s.vRandom|
  {
    s.vRandom[p] in s.mapInfo && s.mapInfo[s.vRandom[p]].nRandomPos == p
  }

  ghost predicate Random(s: Tables) {
    forall p {:trigger PlaceOk(s, p)} :: 0 <= p < |s.vRandom| ==> PlaceOk(s, p)
  }

  ghost predicate TriedOk(cfg: Config, s: Tables, t: Slot)
    requires t in s.vvTried
  {
    var id := s.vvTried[t];
    id in s.mapInfo && s.mapInfo[id].fInTried && t == TriedSlot(cfg, s.mapInfo[id].addr)
  }

  ghost predicate TriedTable(cfg: Config, s: Tables) {
    forall t {:trigger TriedOk(cfg, s, t)} :: t in s.vvTried ==> TriedOk(cfg, s, t)
  }

  ghost predicate NewOk(cfg: Config, s: Tables, t: Slot)
    requires t in s.vvNew
  {
    var id := s.vvNew[t];
    id in s.mapInfo && !s.mapInfo[id].fInTried && 0 <= t.0 < cfg.newCount && t == NewSlot(cfg, t.0, s.mapInfo[id].addr)
  }

  ghost predicate NewTable(cfg: Config, s: Tables) {
    forall t {:trigger NewOk(cfg, s, t)} :: t in s.vvNew ==> NewOk(cfg, s, t)
  }

  /** `missing` ids outside the "tried" table are not counted in `nNew` for the moment. */
  ghost predicate Counts(s: Tables, missing: int) {
    && s.nNew + missing == |NewIds(s.mapInfo)|
    && s.nTried == |TriedIds(s.mapInfo)|
    && s.nIdCount >= 0
  }

  ghost predicate Almost(cfg: Config, s: Tables, limbo: set<int>, missing: int) {
    && Infos(cfg, s, limbo) && Addresses(s) && Random(s) && TriedTable(cfg, s) && NewTable(cfg, s) && Counts(s, missing)
  }

  /** The invariant; `AddrManCheck` compares it with what `Check_` tests. */
  ghost predicate Inv(cfg: Config, s: Tables) {
    Almost(cfg, s, {}, 0)
  }

  lemma KeysSplit(m: map<int, Info>)
    ensures |m.Keys| == |NewIds(m)| + |TriedIds(m)|
  {
    assert m.Keys == NewIds(m) + TriedIds(m);
    assert NewIds(m) !! TriedIds(m);
  }

  lemma PlacesAreKeys(cfg: Config, s: Tables)
    requires Infos(cfg, s, {}) && Random(s)
    ensures Places(s, |s.vRandom|) == s.mapInfo.Keys
  {
    var places := Places(s, |s.vRandom|);
    forall id ensures id in places <==> id in s.mapInfo {
      if id in s.mapInfo { assert InfoOk(cfg, s, id, {}); }
      if id in places {
        var p :| 0 <= p < |s.vRandom| && s.vRandom[p] == id;
        assert PlaceOk(s, p);
      }
    }
  }

  /** The permutation has one place for each id, so its size is the sum of the counters. */
  lemma SizeIsSum(cfg: Config, s: Tables)
    requires Inv(cfg, s)
    ensures |s.vRandom| == s.nTried + s.nNew
  {
    KeysSplit(s.mapInfo);
    PlacesAreKeys(cfg, s);
    PlacesCount(s, |s.vRandom|);
  }

  /** The ids at the first `n` places of the permutation. */
  function Places(s: Tables, n: nat): set<int>
    requires n <= |s.vRandom|
  {
    set p | 0 <= p < n :: s.vRandom[p]
  }

  lemma {:induction false} PlacesCount(s: Tables, n: nat)
    requires Random(s) && n <= |s.vRandom|
    ensures |Places(s, n)| == n
  {
    if n > 0 {
      PlacesCount(s, n - 1);
      var id := s.vRandom[n - 1];
      assert Places(s, n) == Places(s, n - 1) + {id};
      forall p | 0 <= p < n - 1 ensures s.vRandom[p] != id { assert PlaceOk(s, p) && PlaceOk(s, n - 1); }
      assert id !in Places(s, n - 1);
    }
  }

  // ---------------------------------------------------------------- updating one entry

  function WithInfo(s: Tables, id: int, i: Info): Tables {
    s.(mapInfo := s.mapInfo[id := i])
  }

  /** The same entries in the same tables; only statistics and the permutation may differ. */
  ghost predicate SameEntry(s: Tables, s': Tables, id: int) {
    && (id in s'.mapInfo <==> id in s.mapInfo)
    && (id in s.mapInfo ==>
       s'.mapInfo[id].addr == s.mapInfo[id].addr && s'.mapInfo[id].fInTried == s.mapInfo[id].fInTried)
  }

  ghost predicate SameEntries(s: Tables, s': Tables) {
    && (forall id {:trigger SameEntry(s, s', id)} :: SameEntry(s, s', id))
    && s'.mapAddr == s.mapAddr && s'.vvTried == s.vvTried && s'.vvNew == s.vvNew
    && s'.nTried == s.nTried && s'.nNew == s.nNew && s'.nIdCount == s.nIdCount
  }

  lemma SameEntriesKeep(cfg: Config, s: Tables, s': Tables, missing: int)
    requires SameEntries(s, s') && Addresses(s) && TriedTable(cfg, s) && NewTable(cfg, s) && Counts(s, missing)
    ensures Addresses(s') && TriedTable(cfg, s') && NewTable(cfg, s') && Counts(s', missing)
  {
    forall ip | ip in s'.mapAddr ensures AddressOk(s', ip) {
      assert AddressOk(s, ip) && SameEntry(s, s', s.mapAddr[ip]);
    }
    forall t | t in s'.vvTried ensures TriedOk(cfg, s', t) {
      assert TriedOk(cfg, s, t) && SameEntry(s, s', s.vvTried[t]);
    }
    forall t | t in s'.vvNew ensures NewOk(cfg, s', t) { assert NewOk(cfg, s, t) && SameEntry(s, s', s.vvNew[t]); }
    forall id ensures id in NewIds(s'.mapInfo) <==> id in NewIds(s.mapInfo) { assert SameEntry(s, s', id); }
    forall id ensures id in TriedIds(s'.mapInfo) <==> id in TriedIds(s.mapInfo) { assert SameEntry(s, s', id); }
    assert NewIds(s'.mapInfo) == NewIds(s.mapInfo) && TriedIds(s'.mapInfo) == TriedIds(s.mapInfo);
  }

  /** The fields that the tables depend on. */
  ghost predicate SamePlace(i: Info, j: Info) {
    i.addr == j.addr && i.nRefCount == j.nRefCount && i.fInTried == j.fInTried && i.nRandomPos == j.nRandomPos
  }

  /** Changing times, services and attempts keeps the invariant. */
  lemma StatsKeep(cfg: Config, s: Tables, id: int, i: Info)
    requires Inv(cfg, s) && id in s.mapInfo && SamePlace(s.mapInfo[id], i)
    requires i.nLastTry >= 0 && i.nLastSuccess >= 0 && (i.fInTried ==> i.nLastSuccess != 0)
    ensures Inv(cfg, WithInfo(s, id, i))
  {
    SameEntriesKeep(cfg, s, WithInfo(s, id, i), 0);
    StatsInfos(cfg, s, id, i);
  }

  lemma StatsInfos(cfg: Config, s: Tables, id: int, i: Info)
    requires Infos(cfg, s, {}) && Random(s) && id in s.mapInfo && SamePlace(s.mapInfo[id], i)
    requires i.nLastTry >= 0 && i.nLastSuccess >= 0 && (i.fInTried ==> i.nLastSuccess != 0)
    ensures Infos(cfg, WithInfo(s, id, i), {}) && Random(WithInfo(s, id, i))
  {
    var s' := WithInfo(s, id, i);
    forall j | j in s'.mapInfo ensures InfoOk(cfg, s', j, {}) {
      assert InfoOk(cfg, s, j, {});
    }
    forall p | 0 <= p < |s'.vRandom| ensures PlaceOk(s', p) { assert PlaceOk(s, p); }
  }

  // ---------------------------------------------------------------- the permutation

  ghost predicate CanSwap(s: Tables, p: int, q: int) {
    0 <= p < |s.vRandom| && 0 <= q < |s.vRandom| && s.vRandom[p] in s.mapInfo && s.vRandom[q] in s.mapInfo
  }

  function SwapRandom(s: Tables, p: int, q: int): Tables
    requires CanSwap(s, p, q)
  {
    if p == q then s
    else
      var id1, id2 := s.vRandom[p], s.vRandom[q];
      var m := s.mapInfo[id1 := s.mapInfo[id1].(nRandomPos := q)];
      s.(mapInfo := m[id2 := m[id2].(nRandomPos := p)], vRandom := s.vRandom[p := id2][q := id1])
  }

  lemma SwapInfos(cfg: Config, s: Tables, p: int, q: int, limbo: set<int>)
    requires Infos(cfg, s, limbo) && CanSwap(s, p, q) && p != q
    ensures Infos(cfg, SwapRandom(s, p, q), limbo)
  {
    var s' := SwapRandom(s, p, q);
    forall id | id in s'.mapInfo ensures InfoOk(cfg, s', id, limbo) {
      assert InfoOk(cfg, s, id, limbo);
    }
  }

  lemma SwapPlaces(s: Tables, p: int, q: int)
    requires Random(s) && CanSwap(s, p, q) && p != q
    ensures Random(SwapRandom(s, p, q)) && SameEntries(s, SwapRandom(s, p, q))
  {
    var s' := SwapRandom(s, p, q);
    assert PlaceOk(s, p) && PlaceOk(s, q);
    forall r | 0 <= r < |s'.vRandom| ensures PlaceOk(s', r) { assert PlaceOk(s, r); }
  }

  /** Swapping two places of the permutation keeps everything. */
  lemma SwapKeeps(cfg: Config, s: Tables, p: int, q: int, limbo: set<int>, missing: int)
    requires Almost(cfg, s, limbo, missing) && 0 <= p < |s.vRandom| && 0 <= q < |s.vRandom|
    ensures CanSwap(s, p, q) && Almost(cfg, SwapRandom(s, p, q), limbo, missing)
  {
    assert PlaceOk(s, p) && PlaceOk(s, q);
    if p != q {
      SwapInfos(cfg, s, p, q, limbo);
      SwapPlaces(s, p, q);
      SameEntriesKeep(cfg, s, SwapRandom(s, p, q), missing);
    }
  }

  // ---------------------------------------------------------------- deleting an entry

  /** The entry at the end of the permutation is erased. */
  function Erased(s: Tables, id: int): Tables
    requires id in s.mapInfo && |s.vRandom| > 0
  {
    s.(vRandom := s.vRandom[..|s.vRandom| - 1], mapAddr := s.mapAddr - {s.mapInfo[id].addr.ip},
       mapInfo := s.mapInfo - {id}, nNew := s.nNew - 1)
  }

  ghost predicate CanDelete(s: Tables, id: int) {
    && id in s.mapInfo && CanSwap(s, s.mapInfo[id].nRandomPos, |s.vRandom| - 1)
    && s.vRandom[s.mapInfo[id].nRandomPos] == id
  }

  function Deleted(s: Tables, id: int): Tables
    requires CanDelete(s, id)
  {
    Erased(SwapRandom(s, s.mapInfo[id].nRandomPos, |s.vRandom| - 1), id)
  }

  /** An id without references is in no slot of the "new" table. */
  lemma NotInNewTable(cfg: Config, s: Tables, id: int, limbo: set<int>, t: Slot)
    requires NewTable(cfg, s) && id in s.mapInfo && InfoOk(cfg, s, id, limbo) && s.mapInfo[id].nRefCount == 0
    requires t in s.vvNew
    ensures s.vvNew[t] != id
  {
    assert NewOk(cfg, s, t);
    assert t.0 !in Buckets(cfg, s.vvNew, id, s.mapInfo[id].addr);
  }

  lemma EraseInfos(cfg: Config, s: Tables, id: int, limbo: set<int>)
    requires Infos(cfg, s, limbo) && id in s.mapInfo && s.mapInfo[id].nRandomPos == |s.vRandom| - 1 >= 0
    ensures Infos(cfg, Erased(s, id), limbo - {id})
  {
    var s' := Erased(s, id);
    assert InfoOk(cfg, s, id, limbo);
    forall j | j in s'.mapInfo ensures InfoOk(cfg, s', j, limbo - {id}) {
      assert InfoOk(cfg, s, j, limbo);
    }
  }

  lemma EraseIndexes(cfg: Config, s: Tables, id: int, limbo: set<int>)
    requires Infos(cfg, s, limbo) && Addresses(s) && Random(s) && id in s.mapInfo
             && s.mapInfo[id].nRandomPos == |s.vRandom| - 1 >= 0
    ensures Addresses(Erased(s, id)) && Random(Erased(s, id))
  {
    var s' := Erased(s, id);
    assert InfoOk(cfg, s, id, limbo);
    forall ip | ip in s'.mapAddr ensures AddressOk(s', ip) { assert AddressOk(s, ip); }
    forall p | 0 <= p < |s'.vRandom| ensures PlaceOk(s', p) { assert PlaceOk(s, p); }
  }

  lemma EraseTables(cfg: Config, s: Tables, id: int, limbo: set<int>, missing: int)
    requires Infos(cfg, s, limbo) && TriedTable(cfg, s) && NewTable(cfg, s) && Counts(s, missing)
    requires id in s.mapInfo && !s.mapInfo[id].fInTried && s.mapInfo[id].nRefCount == 0 && |s.vRandom| > 0
    ensures TriedTable(cfg, Erased(s, id)) && NewTable(cfg, Erased(s, id)) && Counts(Erased(s, id), missing)
  {
    var s' := Erased(s, id);
    assert InfoOk(cfg, s, id, limbo);
    forall t | t in s'.vvTried ensures TriedOk(cfg, s', t) { assert TriedOk(cfg, s, t); }
    forall t | t in s'.vvNew ensures NewOk(cfg, s', t) {
      NotInNewTable(cfg, s, id, limbo, t);
      assert NewOk(cfg, s, t);
    }
    assert NewIds(s'.mapInfo) == NewIds(s.mapInfo) - {id} && TriedIds(s'.mapInfo) == TriedIds(s.mapInfo);
  }

  /** Deleting an entry without references keeps everything; the position of the last id is fixed
      first. */
  lemma DeletedKeeps(cfg: Config, s: Tables, id: int, limbo: set<int>, missing: int)
    requires Almost(cfg, s, limbo, missing) && id in s.mapInfo && !s.mapInfo[id].fInTried
             && s.mapInfo[id].nRefCount == 0
    ensures CanDelete(s, id) && Almost(cfg, Deleted(s, id), limbo - {id}, missing)
  {
    assert InfoOk(cfg, s, id, limbo);
    var p, q := s.mapInfo[id].nRandomPos, |s.vRandom| - 1;
    assert PlaceOk(s, p) && PlaceOk(s, q);
    SwapKeeps(cfg, s, p, q, limbo, missing);
    var t := SwapRandom(s, p, q);
    EraseInfos(cfg, t, id, limbo);
    EraseIndexes(cfg, t, id, limbo);
    EraseTables(cfg, t, id, limbo, missing);
  }

  // ---------------------------------------------------------------- slots of the "new" table

  /** A slot is emptied and the reference of its entry dropped. */
  function Dropped(s: Tables, t: Slot): Tables
    requires t in s.vvNew && s.vvNew[t] in s.mapInfo
  {
    var id := s.vvNew[t];
    s.(vvNew := s.vvNew - {t}, mapInfo := s.mapInfo[id := s.mapInfo[id].(nRefCount := s.mapInfo[id].nRefCount - 1)])
  }

  lemma BucketsDrop(cfg: Config, vvNew: map<Slot, int>, t: Slot, id: int, a: Service)
    requires t in vvNew && (vvNew[t] == id ==> 0 <= t.0 < cfg.newCount && t == NewSlot(cfg, t.0, a))
    ensures |Buckets(cfg, vvNew - {t}, id, a)| == |Buckets(cfg, vvNew, id, a)| - if vvNew[t] == id then 1 else 0
  {
    var old_b, new_b := Buckets(cfg, vvNew, id, a), Buckets(cfg, vvNew - {t}, id, a);
    if vvNew[t] == id {
      assert t.0 in old_b;
      assert new_b == old_b - {t.0};
    } else {
      assert new_b == old_b;
    }
  }

  lemma DropInfos(cfg: Config, s: Tables, t: Slot, limbo: set<int>)
    requires Infos(cfg, s, limbo) && t in s.vvNew && NewOk(cfg, s, t)
    ensures Infos(cfg, Dropped(s, t), limbo + {s.vvNew[t]})
  {
    var s' := Dropped(s, t);
    assert NewOk(cfg, s, t);
    forall j | j in s'.mapInfo ensures InfoOk(cfg, s', j, limbo + {s.vvNew[t]}) {
      assert InfoOk(cfg, s, j, limbo);
      BucketsDrop(cfg, s.vvNew, t, j, s.mapInfo[j].addr);
    }
  }

  lemma DropTables(cfg: Config, s: Tables, t: Slot, missing: int)
    requires Addresses(s) && Random(s) && TriedTable(cfg, s) && NewTable(cfg, s) && Counts(s, missing)
    requires t in s.vvNew && NewOk(cfg, s, t)
    ensures var s' := Dropped(s, t);
            Addresses(s') && Random(s') && TriedTable(cfg, s') && NewTable(cfg, s') && Counts(s', missing)
  {
    var s' := Dropped(s, t);
    forall ip | ip in s'.mapAddr ensures AddressOk(s', ip) { assert AddressOk(s, ip); }
    forall p | 0 <= p < |s'.vRandom| ensures PlaceOk(s', p) { assert PlaceOk(s, p); }
    forall u | u in s'.vvTried ensures TriedOk(cfg, s', u) { assert TriedOk(cfg, s, u); }
    forall u | u in s'.vvNew ensures NewOk(cfg, s', u) { assert NewOk(cfg, s, u); }
    assert NewIds(s'.mapInfo) == NewIds(s.mapInfo) && TriedIds(s'.mapInfo) == TriedIds(s.mapInfo);
  }

  lemma DroppedKeeps(cfg: Config, s: Tables, t: Slot, limbo: set<int>, missing: int)
    requires Almost(cfg, s, limbo, missing) && t in s.vvNew
    ensures s.vvNew[t] in s.mapInfo && s.mapInfo[s.vvNew[t]].nRefCount > 0
    ensures Almost(cfg, Dropped(s, t), limbo + {s.vvNew[t]}, missing)
  {
    var id := s.vvNew[t];
    assert NewOk(cfg, s, t);
    assert InfoOk(cfg, s, id, limbo);
    assert t.0 in Buckets(cfg, s.vvNew, id, s.mapInfo[id].addr);
    DropInfos(cfg, s, t, limbo);
    DropTables(cfg, s, t, missing);
  }

  ghost predicate CanClear(s: Tables, t: Slot) {
    t in s.vvNew ==> CanDelete(s, s.vvNew[t])
  }

  /** `ClearNew`: an entry that loses its last reference is deleted. */
  function ClearedNew(s: Tables, t: Slot): Tables
    requires CanClear(s, t)
  {
    if t !in s.vvNew then s
    else
      var id := s.vvNew[t];
      var s' := Dropped(s, t);
      if s'.mapInfo[id].nRefCount == 0 then Deleted(s', id) else s'
  }

  /** An id that has references is not in limbo. */
  lemma LeaveLimbo(cfg: Config, s: Tables, id: int, limbo: set<int>, missing: int)
    requires Almost(cfg, s, limbo + {id}, missing) && id in s.mapInfo && s.mapInfo[id].nRefCount > 0
    ensures Almost(cfg, s, limbo, missing)
  {
    forall j | j in s.mapInfo ensures InfoOk(cfg, s, j, limbo) {
      assert InfoOk(cfg, s, j, limbo + {id});
    }
  }

  ghost predicate SameButPlace(i: Info, j: Info) {
    j == i.(nRandomPos := j.nRandomPos)
  }

  /** Everything but the slot's own entry stays, up to its place in the permutation. */
  lemma ClearedRest(s: Tables, t: Slot, id: int)
    requires CanClear(s, t) && id in s.mapInfo && Get(s.vvNew, t) != Some(id)
    ensures id in ClearedNew(s, t).mapInfo && SameButPlace(s.mapInfo[id], ClearedNew(s, t).mapInfo[id])
  {
  }

  lemma ClearedTables(s: Tables, t: Slot)
    requires CanClear(s, t)
    ensures ClearedNew(s, t).vvNew == s.vvNew - {t} && ClearedNew(s, t).vvTried == s.vvTried
    ensures ClearedNew(s, t).nIdCount == s.nIdCount
  {
    if t !in s.vvNew { assert s.vvNew - {t} == s.vvNew; }
  }

  /** Clearing a slot whose entry is not in limbo keeps everything, and its assertions hold. */
  lemma ClearedKeeps(cfg: Config, s: Tables, t: Slot, limbo: set<int>, missing: int)
    requires Almost(cfg, s, limbo, missing) && (t in s.vvNew ==> s.vvNew[t] !in limbo)
    ensures CanClear(s, t)
    ensures t in s.vvNew ==> s.mapInfo[s.vvNew[t]].nRefCount > 0 && !s.mapInfo[s.vvNew[t]].fInTried
    ensures Almost(cfg, ClearedNew(s, t), limbo, missing)
  {
    if t in s.vvNew {
      var id := s.vvNew[t];
      assert NewOk(cfg, s, t);
      DroppedKeeps(cfg, s, t, limbo, missing);
      var s' := Dropped(s, t);
      if s'.mapInfo[id].nRefCount == 0 {
        DeletedKeeps(cfg, s', id, limbo + {id}, missing);
        assert limbo + {id} - {id} == limbo;
      } else {
        LeaveLimbo(cfg, s', id, limbo, missing);
      }
      ClearPossible(cfg, s, id, limbo);
    }
  }

  lemma ClearPossible(cfg: Config, s: Tables, id: int, limbo: set<int>)
    requires Infos(cfg, s, limbo) && Random(s) && id in s.mapInfo
    ensures CanDelete(s, id)
  {
    assert InfoOk(cfg, s, id, limbo);
    assert PlaceOk(s, |s.vRandom| - 1);
  }

  // ---------------------------------------------------------------- entering a slot of the "new" table

  /** An entry is put into an empty slot and gets the reference count `n`. */
  function Placed(s: Tables, id: int, t: Slot, n: int): Tables
    requires id in s.mapInfo
  {
    s.(vvNew := s.vvNew[t := id], mapInfo := s.mapInfo[id := s.mapInfo[id].(nRefCount := n)])
  }

  lemma BucketsPlace(cfg: Config, vvNew: map<Slot, int>, t: Slot, id: int, j: int, a: Service)
    requires t !in vvNew && (j == id ==> 0 <= t.0 < cfg.newCount && t == NewSlot(cfg, t.0, a))
    ensures |Buckets(cfg, vvNew[t := id], j, a)| == |Buckets(cfg, vvNew, j, a)| + if j == id then 1 else 0
  {
    var old_b, new_b := Buckets(cfg, vvNew, j, a), Buckets(cfg, vvNew[t := id], j, a);
    if j == id {
      assert t.0 !in old_b;
      assert new_b == old_b + {t.0};
    } else {
      assert new_b == old_b;
    }
  }

  ghost predicate CanPlace(cfg: Config, s: Tables, id: int, t: Slot) {
    && id in s.mapInfo && !s.mapInfo[id].fInTried && s.mapInfo[id].nRefCount < MAX_REFERENCES
    && t !in s.vvNew && 0 <= t.0 < cfg.newCount && t == NewSlot(cfg, t.0, s.mapInfo[id].addr)
  }

  lemma PlaceInfos(cfg: Config, s: Tables, id: int, t: Slot, limbo: set<int>)
    requires Infos(cfg, s, limbo) && CanPlace(cfg, s, id, t)
    ensures Infos(cfg, Placed(s, id, t, s.mapInfo[id].nRefCount + 1), limbo - {id})
  {
    var s' := Placed(s, id, t, s.mapInfo[id].nRefCount + 1);
    assert InfoOk(cfg, s, id, limbo);
    forall j | j in s'.mapInfo ensures InfoOk(cfg, s', j, limbo - {id}) {
      assert InfoOk(cfg, s, j, limbo);
      BucketsPlace(cfg, s.vvNew, t, id, j, s.mapInfo[j].addr);
    }
  }

  lemma PlaceTables(cfg: Config, s: Tables, id: int, t: Slot, missing: int)
    requires Addresses(s) && Random(s) && TriedTable(cfg, s) && NewTable(cfg, s) && Counts(s, missing)
             && CanPlace(cfg, s, id, t)
    ensures var s' := Placed(s, id, t, s.mapInfo[id].nRefCount + 1);
            Addresses(s') && Random(s') && TriedTable(cfg, s') && NewTable(cfg, s') && Counts(s', missing)
  {
    var s' := Placed(s, id, t, s.mapInfo[id].nRefCount + 1);
    forall ip | ip in s'.mapAddr ensures AddressOk(s', ip) { assert AddressOk(s, ip); }
    forall p | 0 <= p < |s'.vRandom| ensures PlaceOk(s', p) { assert PlaceOk(s, p); }
    forall u | u in s'.vvTried ensures TriedOk(cfg, s', u) { assert TriedOk(cfg, s, u); }
    forall u | u in s'.vvNew ensures NewOk(cfg, s', u) { if u != t { assert NewOk(cfg, s, u); } }
    assert NewIds(s'.mapInfo) == NewIds(s.mapInfo) && TriedIds(s'.mapInfo) == TriedIds(s.mapInfo);
  }

  /** Entering an empty slot at the entry's own position takes the entry out of limbo. */
  lemma PlacedKeeps(cfg: Config, s: Tables, id: int, t: Slot, limbo: set<int>, missing: int)
    requires Almost(cfg, s, limbo, missing) && CanPlace(cfg, s, id, t)
    ensures Almost(cfg, Placed(s, id, t, s.mapInfo[id].nRefCount + 1), limbo - {id}, missing)
  {
    PlaceInfos(cfg, s, id, t, limbo);
    PlaceTables(cfg, s, id, t, missing);
  }

  // ---------------------------------------------------------------- creating an entry

  function NewInfo(addr: Service, nTime: int, nServices: set<nat>, source: Ip, place: int): Info {
    Info(addr, source, nTime, nServices, 0, 0, 0, 0, false, place)
  }

  /** `Create`, and the count of the new entry. */
  function Created(s: Tables, i: Info): Tables {
    s.(nIdCount := s.nIdCount + 1, mapInfo := s.mapInfo[s.nIdCount := i], mapAddr := s.mapAddr[i.addr.ip := s.nIdCount],
       vRandom := s.vRandom + [s.nIdCount], nNew := s.nNew + 1)
  }

  ghost predicate CanCreate(s: Tables, i: Info) {
    && i.addr.ip !in s.mapAddr && !i.fInTried && i.nRefCount == 0 && i.nRandomPos == |s.vRandom|
    && i.nLastTry >= 0 && i.nLastSuccess >= 0
  }

  lemma FreshId(cfg: Config, s: Tables, limbo: set<int>)
    requires Infos(cfg, s, limbo)
    ensures s.nIdCount !in s.mapInfo
  {
    forall id | id in s.mapInfo ensures id < s.nIdCount { assert InfoOk(cfg, s, id, limbo); }
  }

  lemma CreateInfos(cfg: Config, s: Tables, i: Info, limbo: set<int>)
    requires Infos(cfg, s, limbo) && NewTable(cfg, s) && s.nIdCount >= 0 && CanCreate(s, i)
    ensures Infos(cfg, Created(s, i), limbo + {s.nIdCount})
  {
    var id, s' := s.nIdCount, Created(s, i);
    FreshId(cfg, s, limbo);
    forall t | t in s.vvNew ensures s.vvNew[t] != id { assert NewOk(cfg, s, t); }
    assert Buckets(cfg, s'.vvNew, id, i.addr) == {};
    forall j | j in s'.mapInfo ensures InfoOk(cfg, s', j, limbo + {id}) {
      if j != id { assert InfoOk(cfg, s, j, limbo); }
    }
  }

  lemma CreateIndexes(cfg: Config, s: Tables, i: Info, limbo: set<int>)
    requires Infos(cfg, s, limbo) && Addresses(s) && Random(s) && CanCreate(s, i)
    ensures Addresses(Created(s, i)) && Random(Created(s, i))
  {
    var s' := Created(s, i);
    FreshId(cfg, s, limbo);
    forall ip | ip in s'.mapAddr ensures AddressOk(s', ip) { if ip != i.addr.ip { assert AddressOk(s, ip); } }
    forall p | 0 <= p < |s'.vRandom| ensures PlaceOk(s', p) { if p < |s.vRandom| { assert PlaceOk(s, p); } }
  }

  lemma CreateTables(cfg: Config, s: Tables, i: Info, limbo: set<int>, missing: int)
    requires Infos(cfg, s, limbo) && TriedTable(cfg, s) && NewTable(cfg, s) && Counts(s, missing) && CanCreate(s, i)
    ensures TriedTable(cfg, Created(s, i)) && NewTable(cfg, Created(s, i)) && Counts(Created(s, i), missing)
  {
    var id, s' := s.nIdCount, Created(s, i);
    FreshId(cfg, s, limbo);
    forall u | u in s'.vvTried ensures TriedOk(cfg, s', u) { assert TriedOk(cfg, s, u); }
    forall u | u in s'.vvNew ensures NewOk(cfg, s', u) { assert NewOk(cfg, s, u); }
    assert NewIds(s'.mapInfo) == NewIds(s.mapInfo) + {id} && TriedIds(s'.mapInfo) == TriedIds(s.mapInfo);
  }

  lemma CreatedKeeps(cfg: Config, s: Tables, i: Info, limbo: set<int>, missing: int)
    requires Almost(cfg, s, limbo, missing) && CanCreate(s, i)
    ensures Almost(cfg, Created(s, i), limbo + {s.nIdCount}, missing)
  {
    CreateInfos(cfg, s, i, limbo);
    CreateIndexes(cfg, s, i, limbo);
    CreateTables(cfg, s, i, limbo, missing);
  }

  // ---------------------------------------------------------------- the "tried" table

  /** The entry of a slot of the "tried" table is taken out. */
  function Untried(s: Tables, t: Slot): Tables
    requires t in s.vvTried && s.vvTried[t] in s.mapInfo
  {
    var id := s.vvTried[t];
    s.(vvTried := s.vvTried - {t}, mapInfo := s.mapInfo[id := s.mapInfo[id].(fInTried := false)],
      nTried := s.nTried - 1)
  }

  lemma UntriedInfos(cfg: Config, s: Tables, t: Slot, limbo: set<int>)
    requires Infos(cfg, s, limbo) && t in s.vvTried && TriedOk(cfg, s, t)
    ensures Infos(cfg, Untried(s, t), limbo + {s.vvTried[t]})
  {
    var s' := Untried(s, t);
    forall j | j in s'.mapInfo ensures InfoOk(cfg, s', j, limbo + {s.vvTried[t]}) {
      assert InfoOk(cfg, s, j, limbo);
    }
  }

  lemma UntriedTables(cfg: Config, s: Tables, t: Slot, limbo: set<int>, missing: int)
    requires Almost(cfg, s, limbo, missing) && t in s.vvTried && TriedOk(cfg, s, t)
    ensures var s' := Untried(s, t);
            Addresses(s') && Random(s') && TriedTable(cfg, s') && NewTable(cfg, s') && Counts(s', missing + 1)
  {
    var id, s' := s.vvTried[t], Untried(s, t);
    assert InfoOk(cfg, s, id, limbo);
    forall ip | ip in s'.mapAddr ensures AddressOk(s', ip) { assert AddressOk(s, ip); }
    forall p | 0 <= p < |s'.vRandom| ensures PlaceOk(s', p) { assert PlaceOk(s, p); }
    forall u | u in s'.vvTried ensures TriedOk(cfg, s', u) { assert TriedOk(cfg, s, u); }
    forall u | u in s'.vvNew ensures NewOk(cfg, s', u) { assert NewOk(cfg, s, u); }
    assert NewIds(s'.mapInfo) == NewIds(s.mapInfo) + {id} && TriedIds(s'.mapInfo) == TriedIds(s.mapInfo) - {id};
  }

  lemma UntriedKeeps(cfg: Config, s: Tables, t: Slot, limbo: set<int>, missing: int)
    requires Almost(cfg, s, limbo, missing) && t in s.vvTried
    ensures TriedOk(cfg, s, t)
    ensures Almost(cfg, Untried(s, t), limbo + {s.vvTried[t]}, missing + 1)
  {
    assert TriedOk(cfg, s, t);
    UntriedInfos(cfg, s, t, limbo);
    UntriedTables(cfg, s, t, limbo, missing);
  }

  /** An entry without references goes into an empty slot of the "tried" table. */
  function Tried(s: Tables, id: int, t: Slot): Tables
    requires id in s.mapInfo
  {
    s.(vvTried := s.vvTried[t := id], mapInfo := s.mapInfo[id := s.mapInfo[id].(fInTried := true)],
      nTried := s.nTried + 1)
  }

  ghost predicate CanTry(cfg: Config, s: Tables, id: int, t: Slot) {
    && id in s.mapInfo && !s.mapInfo[id].fInTried && s.mapInfo[id].nRefCount == 0 && s.mapInfo[id].nLastSuccess != 0
    && t !in s.vvTried && t == TriedSlot(cfg, s.mapInfo[id].addr)
  }

  lemma TriedInfos(cfg: Config, s: Tables, id: int, t: Slot, limbo: set<int>)
    requires Infos(cfg, s, limbo) && CanTry(cfg, s, id, t)
    ensures Infos(cfg, Tried(s, id, t), limbo - {id})
  {
    var s' := Tried(s, id, t);
    forall j | j in s'.mapInfo ensures InfoOk(cfg, s', j, limbo - {id}) {
      assert InfoOk(cfg, s, j, limbo);
    }
  }

  lemma TriedTables(cfg: Config, s: Tables, id: int, t: Slot, limbo: set<int>, missing: int)
    requires Almost(cfg, s, limbo, missing) && CanTry(cfg, s, id, t)
    ensures var s' := Tried(s, id, t);
            Addresses(s') && Random(s') && TriedTable(cfg, s') && NewTable(cfg, s') && Counts(s', missing - 1)
  {
    var s' := Tried(s, id, t);
    assert InfoOk(cfg, s, id, limbo);
    forall ip | ip in s'.mapAddr ensures AddressOk(s', ip) { assert AddressOk(s, ip); }
    forall p | 0 <= p < |s'.vRandom| ensures PlaceOk(s', p) { assert PlaceOk(s, p); }
    forall u | u in s'.vvTried ensures TriedOk(cfg, s', u) { if u != t { assert TriedOk(cfg, s, u); } }
    forall u | u in s'.vvNew ensures NewOk(cfg, s', u) {
      NotInNewTable(cfg, s, id, limbo, u);
      assert NewOk(cfg, s, u);
    }
    assert NewIds(s'.mapInfo) == NewIds(s.mapInfo) - {id} && TriedIds(s'.mapInfo) == TriedIds(s.mapInfo) + {id};
  }

  lemma TriedKeeps(cfg: Config, s: Tables, id: int, t: Slot, limbo: set<int>, missing: int)
    requires Almost(cfg, s, limbo, missing) && CanTry(cfg, s, id, t)
    ensures Almost(cfg, Tried(s, id, t), limbo - {id}, missing - 1)
  {
    TriedInfos(cfg, s, id, t, limbo);
    TriedTables(cfg, s, id, t, limbo, missing);
  }
}
