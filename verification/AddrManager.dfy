/** `CAddrMan` as an object that is updated in place: each method does to the tables what the
    function of the same purpose in `AddrMan` says. */
module AddrManager {
  import opened Arithmetic
  import opened Options
  import opened AddrTables
  import opened AddrMan

  /** A table of buckets; -1 is an empty slot. */
  class BucketTable {
    const slots: array2<int>
    ghost var content: map<Slot, int>

    predicate Has(t: Slot) {
      0 <= t.0 < slots.Length0 && 0 <= t.1 < slots.Length1
    }

    ghost predicate Holds(t: Slot)
      reads this, slots
    {
      if t in content then Has(t) && slots[t.0, t.1] == content[t] && content[t] != -1
      else Has(t) ==> slots[t.0, t.1] == -1
    }

    ghost predicate Valid()
      reads this, slots
    {
      forall t {:trigger Holds(t)} :: Holds(t)
    }

    constructor (buckets: nat, size: nat)
      ensures Valid() && fresh(slots) && slots.Length0 == buckets && slots.Length1 == size && content == map[]
    {
      slots := new int[buckets, size]((b, p) => -1);
      content := map[];
    }

    method Read(b: int, p: int) returns (id: int)
      requires Valid() && 0 <= b < slots.Length0 && 0 <= p < slots.Length1
      ensures if (b, p) in content then id == content[(b, p)] && id != -1 else id == -1
    {
      assert Holds((b, p));
      id := slots[b, p];
    }

    method Fill(b: int, p: int, id: int)
      requires Valid() && 0 <= b < slots.Length0 && 0 <= p < slots.Length1 && id != -1
      modifies this, slots
      ensures Valid() && content == old(content)[(b, p) := id]
    {
      slots[b, p] := id;
      content := content[(b, p) := id];
      forall t ensures Holds(t) { assert old(Holds(t)); assert t == (t.0, t.1); }
    }

    method Clear(b: int, p: int)
      requires Valid() && 0 <= b < slots.Length0 && 0 <= p < slots.Length1
      modifies this, slots
      ensures Valid() && content == old(content) - {(b, p)}
    {
      slots[b, p] := -1;
      content := content - {(b, p)};
      forall t ensures Holds(t) { assert old(Holds(t)); assert t == (t.0, t.1); }
    }

    /** Any number may be written; -1 leaves the slot empty. */
    method Write(b: int, p: int, id: int)
      requires Valid() && 0 <= b < slots.Length0 && 0 <= p < slots.Length1
      modifies this, slots
      ensures Valid() && content == if id == -1 then old(content) - {(b, p)} else old(content)[(b, p) := id]
    {
      if id == -1 { Clear(b, p); } else { Fill(b, p, id); }
    }

    /** The loops of `CAddrMan::Clear` over one table. */
    method ClearAll()
      requires Valid()
      modifies this, slots
      ensures Valid() && content == map[]
    {
      forall t | t in content ensures t.0 >= 0 { assert Holds(t); }
      for bucket := 0 to slots.Length0
        invariant Valid() && forall t :: t in content ==> t.0 >= bucket
      {
        forall t | t in content ensures t.1 >= 0 { assert Holds(t); }
        for entry := 0 to slots.Length1
          invariant Valid() && forall t :: t in content ==> t.0 >= bucket && (t.0 == bucket ==> t.1 >= entry)
        {
          Clear(bucket, entry);
        }
        forall t | t in content ensures t.0 != bucket { assert Holds(t); }
      }
      forall t ensures t !in content { assert Holds(t); }
    }
  }

  class CAddrMan {
    const cfg: Config
    var nIdCount: int
    var mapInfo: map<int, Info>
    var mapAddr: map<Ip, int>
    var vRandom: seq<int>
    var nTried: int
    const vvTried: BucketTable
    var nNew: int
    const vvNew: BucketTable

    ghost predicate Shape()
      reads this, vvTried, vvTried.slots, vvNew, vvNew.slots
    {
      && ConfigOk(cfg) && vvTried != vvNew && vvTried.slots != vvNew.slots
      && vvNew.Valid() && vvNew.slots.Length0 == cfg.newCount && vvNew.slots.Length1 == cfg.bucketSize
      && vvTried.Valid() && vvTried.slots.Length0 == cfg.triedCount && vvTried.slots.Length1 == cfg.bucketSize
    }

    ghost function Abs(): Tables
      reads this, vvTried, vvNew
    {
      Tables(nIdCount, mapInfo, mapAddr, vRandom, nTried, vvTried.content, nNew, vvNew.content)
    }

    ghost predicate Valid()
      reads this, vvTried, vvTried.slots, vvNew, vvNew.slots
    {
      Shape() && Inv(cfg, Abs())
    }

    constructor (cfg: Config)
      requires ConfigOk(cfg)
      ensures Shape() && this.cfg == cfg && Abs() == FRESH
      ensures fresh(vvTried) && fresh(vvTried.slots) && fresh(vvNew) && fresh(vvNew.slots)
    {
      this.cfg := cfg;
      nIdCount, mapInfo, mapAddr, vRandom, nTried, nNew := 0, map[], map[], [], 0, 0;
      vvTried := new BucketTable(cfg.triedCount, cfg.bucketSize);
      vvNew := new BucketTable(cfg.newCount, cfg.bucketSize);
    }

    /** The tables and counters are reset; the entries and the addresses are not.  The random key of the
        hashes is not modelled. */
    method Clear()
      requires Shape()
      modifies this`vRandom, this`nIdCount, this`nTried, this`nNew, vvNew, vvNew.slots, vvTried, vvTried.slots
      ensures Shape() && Abs() == Cleared(old(Abs()))
    {
      vRandom := [];
      vvNew.ClearAll();
      vvTried.ClearAll();
      nIdCount, nTried, nNew := 0, 0, 0;
    }

    method SwapRandom(p: int, q: int)
      requires CanSwap(Abs(), p, q)
      modifies this`mapInfo, this`vRandom
      ensures Abs() == AddrTables.SwapRandom(old(Abs()), p, q)
    {
      if p == q { return; }
      var id1, id2 := vRandom[p], vRandom[q];
      mapInfo := mapInfo[id1 := mapInfo[id1].(nRandomPos := q)];
      mapInfo := mapInfo[id2 := mapInfo[id2].(nRandomPos := p)];
      vRandom := vRandom[p := id2];
      vRandom := vRandom[q := id1];
    }

    method Delete(id: int)
      requires CanDelete(Abs(), id) && !mapInfo[id].fInTried && mapInfo[id].nRefCount == 0
      modifies this`mapInfo, this`vRandom, this`mapAddr, this`nNew
      ensures Abs() == Deleted(old(Abs()), id)
    {
      SwapRandom(mapInfo[id].nRandomPos, |vRandom| - 1);
      vRandom := vRandom[..|vRandom| - 1];
      mapAddr := mapAddr - {mapInfo[id].addr.ip};
      mapInfo := mapInfo - {id};
      nNew := nNew - 1;
    }

    method ClearNew(b: int, p: int)
      requires Shape() && 0 <= b < cfg.newCount && 0 <= p < cfg.bucketSize && CanClear(Abs(), (b, p))
      requires (b, p) in vvNew.content ==>
               mapInfo[vvNew.content[(b, p)]].nRefCount > 0 && !mapInfo[vvNew.content[(b, p)]].fInTried
      modifies this`mapInfo, this`vRandom, this`mapAddr, this`nNew, vvNew, vvNew.slots
      ensures Shape() && Abs() == ClearedNew(old(Abs()), (b, p))
    {
      var id := vvNew.Read(b, p);
      if id != -1 {
        mapInfo := mapInfo[id := mapInfo[id].(nRefCount := mapInfo[id].nRefCount - 1)];
        vvNew.Clear(b, p);
        if mapInfo[id].nRefCount == 0 {
          Delete(id);
        }
      }
    }

    /** One round of the first loop of `MakeTried`. */
    method RemoveFromBucket(id: int, bucket: nat)
      requires Shape() && id in mapInfo && id >= 0 && bucket < cfg.newCount
      modifies this`mapInfo, vvNew, vvNew.slots
      ensures Shape()
      ensures var t := NewSlot(cfg, bucket, old(mapInfo)[id].addr);
              Abs() == if Get(old(vvNew.content), t) == Some(id) then Dropped(old(Abs()), t) else old(Abs())
    {
      var pos := cfg.position(true, bucket, mapInfo[id].addr);
      var at := vvNew.Read(bucket, pos);
      if at == id {
        vvNew.Clear(bucket, pos);
        mapInfo := mapInfo[id := mapInfo[id].(nRefCount := mapInfo[id].nRefCount - 1)];
      }
    }

    /** The loop over all "new" buckets at the start of `MakeTried`. */
    method RemoveFromNew(id: int)
      requires Shape() && id in mapInfo && id >= 0
      modifies this`mapInfo, vvNew, vvNew.slots
      ensures Shape() && Abs() == Stripped(cfg, old(Abs()), id, cfg.newCount)
    {
      ghost var s0 := Abs();
      var bucket := 0;
      while bucket < cfg.newCount
        invariant 0 <= bucket <= cfg.newCount && Shape() && id in mapInfo
        invariant Abs() == Stripped(cfg, s0, id, bucket)
      {
        RemoveFromBucket(id, bucket);
        bucket := bucket + 1;
      }
    }

    method MakeTried(id: int)
      requires Valid() && id in mapInfo && !mapInfo[id].fInTried && mapInfo[id].nLastSuccess != 0
      modifies this, vvNew, vvNew.slots, vvTried, vvTried.slots
      ensures Shape() && CanEvict(cfg, Uncounted(cfg, old(Abs()), id), TriedSlot(cfg, old(mapInfo)[id].addr))
      ensures Abs() == MadeTried(cfg, old(Abs()), id)
    {
      ghost var s0 := Abs();
      StrippedAll(cfg, s0, id);
      assert InfoOk(cfg, s0, id, {});
      RemoveFromNew(id);
      nNew := nNew - 1;
      Recount(cfg, Stripped(cfg, s0, id, cfg.newCount), nNew, {id}, 0);
      assert mapInfo[id].nRefCount == 0;
      var b := cfg.triedBucket(mapInfo[id].addr);
      var p := cfg.position(false, b, mapInfo[id].addr);
      EvictedFrees(cfg, Abs(), id, (b, p));
      Evict(id, b, p);
      PutIntoTried(id, b, p);
    }

    /** The end of `MakeTried`. */
    method PutIntoTried(id: int, b: int, p: int)
      requires Shape() && id in mapInfo && id >= 0 && 0 <= b < cfg.triedCount && 0 <= p < cfg.bucketSize
      requires (b, p) !in vvTried.content
      modifies this, vvTried, vvTried.slots
      ensures Shape() && Abs() == Tried(old(Abs()), id, (b, p))
    {
      var at := vvTried.Read(b, p);
      assert at == -1;
      vvTried.Fill(b, p, id);
      nTried := nTried + 1;
      mapInfo := mapInfo[id := mapInfo[id].(fInTried := true)];
    }

    /** The end of the middle part of `MakeTried`: the evicted entry goes back to the "new" table. */
    method PutBack(e: int)
      requires Shape() && e in mapInfo && e >= 0
      requires var n := NewSlot(cfg, cfg.newBucket(mapInfo[e].addr, mapInfo[e].source), mapInfo[e].addr);
               && CanClear(Abs(), n) && e in ClearedNew(Abs(), n).mapInfo
               && (n in vvNew.content ==>
                  mapInfo[vvNew.content[n]].nRefCount > 0 && !mapInfo[vvNew.content[n]].fInTried)
      modifies this, vvNew, vvNew.slots
      ensures Shape()
      ensures var n := NewSlot(cfg, cfg.newBucket(old(mapInfo)[e].addr, old(mapInfo)[e].source), old(mapInfo)[e].addr);
              && CanClear(old(Abs()), n)
              && var u := ClearedNew(old(Abs()), n);
                 e in u.mapInfo && Abs() == Placed(u, e, n, 1).(nNew := u.nNew + 1)
    {
      var nb := cfg.newBucket(mapInfo[e].addr, mapInfo[e].source);
      var np := cfg.position(true, nb, mapInfo[e].addr);
      ClearedTables(Abs(), (nb, np));
      ClearNew(nb, np);
      var at := vvNew.Read(nb, np);
      assert at == -1;
      mapInfo := mapInfo[e := mapInfo[e].(nRefCount := 1)];
      vvNew.Fill(nb, np, e);
      nNew := nNew + 1;
    }

    /** The middle part of `MakeTried`. */
    method Evict(ghost id: int, b: int, p: int)
      requires Shape() && Almost(cfg, Abs(), {id}, 1) && id in mapInfo && !mapInfo[id].fInTried
               && mapInfo[id].nRefCount == 0
      requires 0 <= b < cfg.triedCount && 0 <= p < cfg.bucketSize
      modifies this, vvNew, vvNew.slots, vvTried, vvTried.slots
      ensures Shape() && CanEvict(cfg, old(Abs()), (b, p)) && Abs() == Evicted(cfg, old(Abs()), (b, p))
    {
      var e := vvTried.Read(b, p);
      if e != -1 {
        EvictedIds(cfg, Abs(), id, (b, p));
        mapInfo := mapInfo[e := mapInfo[e].(fInTried := false)];
        vvTried.Clear(b, p);
        nTried := nTried - 1;
        PutBack(e);
      }
    }

    method Find(ip: Ip) returns (id: Option<int>)
      ensures id == AddrMan.Find(Abs(), ip)
    {
      if ip !in mapAddr { return None; }
      if mapAddr[ip] in mapInfo { return Some(mapAddr[ip]); }
      return None;
    }

    /** The entry of exactly this service. */
    method FindExact(addr: Service) returns (id: Option<int>)
      ensures id == FindService(Abs(), addr)
    {
      id := Find(addr.ip);
      if id.Some? && mapInfo[id.value].addr != addr { id := None; }
    }

    /** The search of `Good_`, from a random bucket onwards: it always finds one. */
    method FindBucket(id: int) returns (nUBucket: int)
      requires Valid() && id in mapInfo && !mapInfo[id].fInTried
      ensures 0 <= nUBucket < cfg.newCount && Get(vvNew.content, NewSlot(cfg, nUBucket, mapInfo[id].addr)) == Some(id)
    {
      ghost var b := InSomeBucket(cfg, Abs(), id);
      var nRnd: int :| 0 <= nRnd < cfg.newCount;
      nUBucket := -1;
      var n := 0;
      while n < cfg.newCount
        invariant 0 <= n <= cfg.newCount && nUBucket == -1
        invariant forall k :: 0 <= k < n ==> Around(k, nRnd, cfg.newCount) != b
      {
        AroundBound(n, nRnd, cfg.newCount);
        var nB := Around(n, nRnd, cfg.newCount);
        var at := vvNew.Read(nB, cfg.position(true, nB, mapInfo[id].addr));
        if at == id {
          assert InfoOk(cfg, Abs(), id, {});
          return nB;
        }
        n := n + 1;
      }
      ReachesAll(b, nRnd, cfg.newCount);
      assert false;
    }

    /** The end of `Good_`: an entry outside the "tried" table is moved there. */
    method Promote(id: int)
      requires Valid() && id in mapInfo && mapInfo[id].nLastSuccess != 0
      modifies this, vvNew, vvNew.slots, vvTried, vvTried.slots
      ensures Shape()
      ensures if old(mapInfo)[id].fInTried then Abs() == old(Abs())
              else CanEvict(cfg, Uncounted(cfg, old(Abs()), id), TriedSlot(cfg, old(mapInfo)[id].addr))
                   && Abs() == MadeTried(cfg, old(Abs()), id)
    {
      if mapInfo[id].fInTried { return; }
      var nUBucket := FindBucket(id);
      if nUBucket == -1 { return; }
      MakeTried(id);
    }

    method Good_(addr: Service, nTime: int)
      requires Valid() && nTime > 0
      modifies this, vvNew, vvNew.slots, vvTried, vvTried.slots
      ensures Valid() && Abs() == Good(cfg, old(Abs()), addr, nTime)
    {
      GoodKeeps(cfg, Abs(), addr, nTime);
      var id := FindExact(addr);
      if id == None { return; }
      SeenKeeps(cfg, Abs(), id.value, nTime);
      mapInfo := mapInfo[id.value := Seen(mapInfo[id.value], nTime)];
      Promote(id.value);
    }

    method Attempt_(addr: Service, nTime: int)
      requires Valid() && nTime >= 0
      modifies this`mapInfo
      ensures Valid() && Abs() == Attempt(old(Abs()), addr, nTime)
    {
      AttemptKeeps(cfg, Abs(), addr, nTime);
      var id := FindExact(addr);
      if id == None { return; }
      var info := mapInfo[id.value];
      mapInfo := mapInfo[id.value := info.(nLastTry := nTime, nAttempts := info.nAttempts + 1)];
    }

    method Connected_(addr: Service, nTime: int)
      requires Valid()
      modifies this`mapInfo
      ensures Valid() && Abs() == Connected(old(Abs()), addr, nTime)
    {
      ConnectedKeeps(cfg, Abs(), addr, nTime);
      var id := FindExact(addr);
      if id == None { return; }
      if nTime - mapInfo[id.value].nTime > 20 * MINUTE {
        mapInfo := mapInfo[id.value := mapInfo[id.value].(nTime := nTime)];
      }
    }

    method Create(addr: Address, source: Ip) returns (id: int)
      modifies this`nIdCount, this`mapInfo, this`mapAddr, this`vRandom
      ensures id == old(nIdCount) && id in mapInfo
      ensures Abs().(nNew := nNew + 1) ==
              Created(old(Abs()), NewInfo(addr.svc, addr.nTime, addr.nServices, source, |old(vRandom)|))
    {
      id := nIdCount;
      nIdCount := nIdCount + 1;
      mapInfo := mapInfo[id := NewInfo(addr.svc, addr.nTime, addr.nServices, source, -1)];
      mapAddr := mapAddr[addr.svc.ip := id];
      mapInfo := mapInfo[id := mapInfo[id].(nRandomPos := |vRandom|)];
      vRandom := vRandom + [id];
    }

    /** The random test of `Add_`: for `refs` references one of `Pow(2, refs)` draws is lucky. */
    method Draw(refs: int) returns (lucky: bool, ghost r: int)
      ensures 0 <= r < Pow(2, Max(refs, 0)) && (lucky <==> r == 0)
      ensures refs <= 0 ==> lucky
    {
      var nFactor, n := 1, 0;
      while n < refs
        invariant 0 <= n <= Max(refs, 0) && nFactor == Pow(2, n) > 0
      {
        nFactor := nFactor * 2;
        n := n + 1;
      }
      var drawn: int :| 0 <= drawn < nFactor;
      r := drawn;
      lucky := !(nFactor > 1 && drawn != 0);
    }

    /** The slot is cleared and the entry put there. */
    method Overwrite(id: int, b: int, p: int)
      requires Shape() && 0 <= b < cfg.newCount && 0 <= p < cfg.bucketSize && CanClear(Abs(), (b, p))
      requires (b, p) in vvNew.content ==>
               mapInfo[vvNew.content[(b, p)]].nRefCount > 0 && !mapInfo[vvNew.content[(b, p)]].fInTried
      requires id >= 0 && id in ClearedNew(Abs(), (b, p)).mapInfo
      modifies this`mapInfo, this`vRandom, this`mapAddr, this`nNew, vvNew, vvNew.slots
      ensures Shape() && CanClear(old(Abs()), (b, p)) && id in ClearedNew(old(Abs()), (b, p)).mapInfo
      ensures var c := ClearedNew(old(Abs()), (b, p)); Abs() == Placed(c, id, (b, p), c.mapInfo[id].nRefCount + 1)
    {
      ClearNew(b, p);
      mapInfo := mapInfo[id := mapInfo[id].(nRefCount := mapInfo[id].nRefCount + 1)];
      vvNew.Fill(b, p, id);
    }

    /** The entry `at`, or none, holds the slot that another entry is for. */
    method Contend(id: int, at: int, b: int, p: int, now: int)
      requires Shape() && Almost(cfg, Abs(), {id}, 0) && id in mapInfo && !mapInfo[id].fInTried && id >= 0
      requires 0 <= b < cfg.newCount && 0 <= p < cfg.bucketSize && at != id
      requires if (b, p) in vvNew.content then at == vvNew.content[(b, p)] && at != -1 && at in mapInfo else at == -1
      modifies this`mapInfo, this`vRandom, this`mapAddr, this`nNew, vvNew, vvNew.slots
      ensures Shape() && CanClear(old(Abs()), (b, p)) && id in ClearedNew(old(Abs()), (b, p)).mapInfo
              && CanDelete(old(Abs()), id)
      ensures var s, c := old(Abs()), ClearedNew(old(Abs()), (b, p));
              Abs() == if at == -1 || GivesWay(s.mapInfo[at], s.mapInfo[id], now)
                then Placed(c, id, (b, p), c.mapInfo[id].nRefCount + 1)
                       else if s.mapInfo[id].nRefCount == 0 then Deleted(s, id)
                       else s
    {
      EnterSafe(cfg, Abs(), id, (b, p));
      var fInsert := at == -1;
      if !fInsert {
        fInsert := GivesWay(mapInfo[at], mapInfo[id], now);
      }
      if fInsert {
        ClearedKeeps(cfg, Abs(), (b, p), {id}, 0);
        Overwrite(id, b, p);
      } else if mapInfo[id].nRefCount == 0 {
        Delete(id);
      }
    }

    /** The last part of `Add_`. */
    method Enter(id: int, source: Ip, now: int)
      requires Shape() && Almost(cfg, Abs(), {id}, 0) && id in mapInfo && !mapInfo[id].fInTried
      requires mapInfo[id].nRefCount < MAX_REFERENCES
      modifies this, vvNew, vvNew.slots
      ensures Valid() && Abs() == Entered(cfg, old(Abs()), id, source, now)
    {
      EnteredKeeps(cfg, Abs(), id, source, now);
      var b := cfg.newBucket(mapInfo[id].addr, source);
      var p := cfg.position(true, b, mapInfo[id].addr);
      EnterSafe(cfg, Abs(), id, (b, p));
      assert InfoOk(cfg, Abs(), id, {id});
      var at := vvNew.Read(b, p);
      if at != id {
        Contend(id, at, b, p, now);
      }
    }

    /** The second branch of `Add_`: the address is unknown. */
    method Admit(addr: Address, source: Ip, penalty: int) returns (id: int)
      modifies this`nIdCount, this`mapInfo, this`mapAddr, this`vRandom, this`nNew
      ensures id == old(nIdCount) && Abs() == Created(old(Abs()), NewcomerInfo(old(Abs()), addr, source, penalty))
    {
      id := Create(addr, source);
      mapInfo := mapInfo[id := mapInfo[id].(nTime := Max(0, mapInfo[id].nTime - penalty))];
      nNew := nNew + 1;
      assert mapInfo == old(mapInfo)[id := NewcomerInfo(old(Abs()), addr, source, penalty)];
    }

    method Add_(addr: Address, source: Ip, penalty: int, now: int) returns (fNew: bool, ghost lucky: bool)
      requires Valid()
      modifies this, vvNew, vvNew.slots
      ensures Valid() && (Abs(), fNew) == Add(cfg, old(Abs()), addr, source, penalty, now, lucky)
    {
      fNew, lucky := false, true;
      AddKeeps(cfg, Abs(), addr, source, penalty, now, lucky);
      if !cfg.routable(addr.svc.ip) { return; }
      var f := Find(addr.svc.ip);
      if f.Some? {
        fNew, lucky := Reannounced(f.value, addr, source, penalty, now);
      } else {
        NewcomerSafe(cfg, Abs(), addr, source, penalty);
        var id := Admit(addr, source, penalty);
        fNew := true;
        Enter(id, source, now);
      }
    }

    /** The first branch of `Add_`, up to its end: the address is known. */
    method Reannounced(id: int, addr: Address, source: Ip, penalty: int, now: int)
      returns (fNew: bool, ghost lucky: bool)
      requires Valid() && cfg.routable(addr.svc.ip) && AddrMan.Find(Abs(), addr.svc.ip) == Some(id)
      modifies this, vvNew, vvNew.slots
      ensures Valid() && (Abs(), fNew) == Add(cfg, old(Abs()), addr, source, penalty, now, lucky)
    {
      fNew, lucky := false, true;
      AddSafe(cfg, Abs(), id, addr, penalty, now);
      mapInfo := mapInfo[id := Refreshed(mapInfo[id], addr, penalty, now)];
      var info := mapInfo[id];
      if addr.nTime == 0 || (info.nTime != 0 && addr.nTime <= info.nTime) { return; }
      if info.fInTried { return; }
      if info.nRefCount == MAX_REFERENCES { return; }
      var drawn, r := Draw(info.nRefCount);
      lucky := drawn;
      if !drawn { return; }
      Enter(id, source, now);
    }

    /** A random one of the remaining entries comes to place `n`. */
    method DrawPlace(n: nat, ghost s0: Tables)
      requires Valid() && OnlyMoved(s0, Abs()) && n < |vRandom|
      modifies this`mapInfo, this`vRandom
      ensures Valid() && OnlyMoved(s0, Abs()) && |vRandom| == |old(vRandom)| && vRandom[..n] == old(vRandom)[..n]
    {
      var nRndPos: int :| n <= nRndPos < |vRandom|;
      ghost var before := vRandom;
      SwapKeeps(cfg, Abs(), n, nRndPos, {}, 0);
      SwapMoves(s0, Abs(), n, nRndPos);
      SwapRandom(n, nRndPos);
      assert vRandom[..n] == before[..n];
    }

    /** One round of `GetAddr_`: the entry that comes to place `n` is taken if it is of good quality. */
    method PickOne(n: nat, vAddr: seq<Address>, ghost ids: seq<int>, now: int, ghost s0: Tables)
      returns (picked: seq<Address>, ghost pickedIds: seq<int>)
      requires Valid() && OnlyMoved(s0, Abs()) && n < |vRandom|
      requires Selection(s0.mapInfo, ids, vAddr, now) && Sieved(s0.mapInfo, vRandom[..n], ids, now)
      modifies this`mapInfo, this`vRandom
      ensures Valid() && OnlyMoved(s0, Abs()) && n < |vRandom| && |picked| <= |vAddr| + 1
      ensures Selection(s0.mapInfo, pickedIds, picked, now) && Sieved(s0.mapInfo, vRandom[..n + 1], pickedIds, now)
    {
      DrawPlace(n, s0);
      assert PlaceOk(Abs(), n);
      var ai := mapInfo[vRandom[n]];
      MovedAt(s0, Abs(), vRandom[n]);
      SieveOne(s0.mapInfo, Abs(), n, ids, vAddr, now);
      picked, pickedIds := vAddr, ids;
      if !IsTerrible(ai, now) {
        picked, pickedIds := vAddr + [Announced(ai)], ids + [vRandom[n]];
      }
    }

    /** Several known addresses of good quality, at random. */
    method GetAddr_(now: int) returns (vAddr: seq<Address>, ghost ids: seq<int>)
      requires Valid()
      modifies this`mapInfo, this`vRandom
      ensures Valid() && OnlyMoved(old(Abs()), Abs())
      ensures |vAddr| <= AddressesWanted(|old(vRandom)|) && Selection(old(mapInfo), ids, vAddr, now)
      ensures |vAddr| <= 2500 && 100 * |vAddr| <= 23 * |old(vRandom)|
      ensures |ids| == |vAddr| && forall i :: 0 <= i < |ids| ==> ids[i] in old(mapInfo)
      ensures forall i :: 0 <= i < |ids| ==>
              var e := old(mapInfo)[ids[i]]; vAddr[i] == Address(e.addr, e.nTime, e.nServices)
      ensures |vAddr| < 2500 && 100 * (|vAddr| + 1) <= 23 * |old(vRandom)| ==>
              forall id :: id in old(mapInfo) && !IsTerrible(old(mapInfo)[id], now) ==> id in ids
    {
      vAddr, ids := [], [];
      var nNodes := GETADDR_MAX_PCT * |vRandom| / 100;
      if nNodes > GETADDR_MAX {
        nNodes := GETADDR_MAX;
      }
      ghost var s0 := Abs();
      var n := 0;
      while n < |vRandom|
        invariant 0 <= n <= |vRandom| == |s0.vRandom| && Valid() && OnlyMoved(s0, Abs())
        invariant Selection(s0.mapInfo, ids, vAddr, now) && |vAddr| <= nNodes
        invariant Sieved(s0.mapInfo, vRandom[..n], ids, now)
      {
        if |vAddr| >= nNodes { break; }
        vAddr, ids := PickOne(n, vAddr, ids, now, s0);
        n := n + 1;
      }
      if n == |vRandom| {
        AllSieved(cfg, s0, Abs(), ids, now);
      }
    }
  }

  const GETADDR_MAX_PCT: int := 23
  const GETADDR_MAX: int := 2500

  /** How many addresses are given away at most. */
  function AddressesWanted(size: nat): int {
    if GETADDR_MAX_PCT * size / 100 > GETADDR_MAX then GETADDR_MAX else GETADDR_MAX_PCT * size / 100
  }

  function Announced(i: Info): Address { Address(i.addr, i.nTime, i.nServices) }

  /** Only the permutation may differ. */
  ghost predicate OnlyMoved(s: Tables, r: Tables) {
    && r == s.(mapInfo := r.mapInfo, vRandom := r.vRandom) && |r.vRandom| == |s.vRandom|
    && r.mapInfo.Keys == s.mapInfo.Keys
    && forall id {:trigger r.mapInfo[id]} :: id in s.mapInfo ==> SameButPlace(s.mapInfo[id], r.mapInfo[id])
  }

  /** The addresses of distinct entries of good quality. */
  ghost predicate Selection(m: map<int, Info>, ids: seq<int>, vAddr: seq<Address>, now: int) {
    && |ids| == |vAddr|
    && (forall i, j :: 0 <= i < j < |ids| ==> ids[i] != ids[j])
    && (forall i :: 0 <= i < |ids| ==> ids[i] in m && !IsTerrible(m[ids[i]], now))
    && forall i :: 0 <= i < |ids| ==> vAddr[i] == Address(m[ids[i]].addr, m[ids[i]].nTime, m[ids[i]].nServices)
  }

  /** `ids` are the entries of good quality among `v`. */
  ghost predicate Sieved(m: map<int, Info>, v: seq<int>, ids: seq<int>, now: int) {
    && (forall id :: id in ids ==> id in v)
    && forall id :: id in v && id in m && !IsTerrible(m[id], now) ==> id in ids
  }

  lemma SwapMoves(s0: Tables, s: Tables, p: int, q: int)
    requires OnlyMoved(s0, s) && CanSwap(s, p, q)
    ensures OnlyMoved(s0, SwapRandom(s, p, q))
  {
  }

  lemma MovedAt(s0: Tables, s: Tables, id: int)
    requires OnlyMoved(s0, s) && id in s.mapInfo
    ensures id in s0.mapInfo && SameButPlace(s0.mapInfo[id], s.mapInfo[id])
  {
    assert id in s0.mapInfo.Keys;
    assert s.mapInfo[id] == s.mapInfo[id];
  }

  /** One round: the entry at the next place joins if it is of good quality. */
  lemma SieveOne(m: map<int, Info>, s: Tables, n: nat, ids: seq<int>, vAddr: seq<Address>, now: int)
    requires n < |s.vRandom| && Random(s) && s.vRandom[n] in s.mapInfo && s.vRandom[n] in m
    requires SameButPlace(m[s.vRandom[n]], s.mapInfo[s.vRandom[n]])
    requires Selection(m, ids, vAddr, now) && Sieved(m, s.vRandom[..n], ids, now)
    ensures var id := s.vRandom[n];
            if IsTerrible(s.mapInfo[id], now) then Sieved(m, s.vRandom[..n + 1], ids, now)
            else Selection(m, ids + [id], vAddr + [Announced(s.mapInfo[id])], now)
                 && Sieved(m, s.vRandom[..n + 1], ids + [id], now)
  {
    var id := s.vRandom[n];
    assert s.vRandom[..n + 1] == s.vRandom[..n] + [id];
    forall p | 0 <= p < n ensures s.vRandom[p] != id { assert PlaceOk(s, p) && PlaceOk(s, n); }
    assert id !in s.vRandom[..n];
  }

  /** When the whole permutation has been looked at, no entry of good quality is missing. */
  lemma AllSieved(cfg: Config, s0: Tables, s: Tables, ids: seq<int>, now: int)
    requires Inv(cfg, s) && OnlyMoved(s0, s) && Sieved(s0.mapInfo, s.vRandom[..|s.vRandom|], ids, now)
    ensures forall id :: id in s0.mapInfo && !IsTerrible(s0.mapInfo[id], now) ==> id in ids
  {
    forall id | id in s0.mapInfo && !IsTerrible(s0.mapInfo[id], now) ensures id in ids {
      assert InfoOk(cfg, s, id, {});
      assert id in s.vRandom[..|s.vRandom|];
    }
  }

  /** The bucket reached after `n` steps from bucket `start` of `count`. */
  function Around(n: nat, start: nat, count: nat): int
    requires count > 0
  {
    (n + start) % count
  }

  lemma {:induction false} AroundBound(n: nat, start: nat, count: nat)
    requires count > 0
    ensures 0 <= Around(n, start, count) < count
  {
  }

  /** Going around from any bucket reaches every bucket. */
  lemma {:induction false} ReachesAll(b: nat, start: nat, count: nat)
    requires b < count && start < count
    ensures exists k :: 0 <= k < count && Around(k, start, count) == b
  {
    if b >= start {
      DivModUnique(b, count, 0, b);
      assert Around(b - start, start, count) == b;
    } else {
      DivModUnique(b + count, count, 1, b);
      assert Around(b - start + count, start, count) == b;
    }
  }

  /** The ids and conditions that `Evict` relies on. */
  lemma EvictedIds(cfg: Config, s: Tables, id: int, t: Slot)
    requires ConfigOk(cfg) && Almost(cfg, s, {id}, 1) && id in s.mapInfo && !s.mapInfo[id].fInTried
             && s.mapInfo[id].nRefCount == 0
    requires t in s.vvTried
    ensures CanEvict(cfg, s, t)
    ensures var e, u, n := s.vvTried[t], Untried(s, t), EvictSlot(cfg, s, t);
            && e != id && e >= 0
            && (n in u.vvNew ==>
               u.vvNew[n] in u.mapInfo && u.mapInfo[u.vvNew[n]].nRefCount > 0
               && !u.mapInfo[u.vvNew[n]].fInTried)
            && e in ClearedNew(u, n).mapInfo
  {
    EvictedKeeps(cfg, s, id, t);
    var e, u, n := s.vvTried[t], Untried(s, t), EvictSlot(cfg, s, t);
    assert TriedOk(cfg, s, t);
    assert InfoOk(cfg, s, e, {id});
    UntriedKeeps(cfg, s, t, {id}, 1);
    LimboHoldsNothing(cfg, u, n, {id} + {e}, 2);
    ClearedKeeps(cfg, u, n, {id} + {e}, 2);
    if n in u.vvNew { assert NewOk(cfg, u, n); }
    ClearedRest(u, n, e);
  }

  /** After eviction the slot is empty and the entry being moved is still there. */
  lemma EvictedFrees(cfg: Config, s: Tables, id: int, t: Slot)
    requires ConfigOk(cfg) && Almost(cfg, s, {id}, 1) && id in s.mapInfo && !s.mapInfo[id].fInTried
             && s.mapInfo[id].nRefCount == 0
    ensures CanEvict(cfg, s, t) && t !in Evicted(cfg, s, t).vvTried && id in Evicted(cfg, s, t).mapInfo
  {
    if t in s.vvTried { EvictedKeeps(cfg, s, id, t); }
  }
}
