/** The operations of the address manager (`src/addrman.cpp`): what each does to the tables, that it
    keeps the invariant, and that its assertions hold.  Random draws are arbitrary parameters. */
module AddrMan {
  import opened Arithmetic
  import opened Options
  import opened AddrTables
  import opened Sets

  /** An announced address. */
  datatype Address = Address(svc: Service, nTime: int, nServices: set<nat>)

  const MINUTE: int := 60
  const DAY: int := 24 * 60 * 60
  const HORIZON_DAYS: int := 30
  const RETRIES: int := 3
  const MAX_FAILURES: int := 10
  const MIN_FAIL_DAYS: int := 7

  predicate IsTerrible(i: Info, now: int) {
    !(i.nLastTry != 0 && i.nLastTry >= now - MINUTE)
    && (|| i.nTime > now + 10 * MINUTE
        || i.nTime == 0 || now - i.nTime > HORIZON_DAYS * DAY
        || (i.nLastSuccess == 0 && i.nAttempts >= RETRIES)
        || (now - i.nLastSuccess > MIN_FAIL_DAYS * DAY && i.nAttempts >= MAX_FAILURES))
  }

  /** An entry tried within the last minute is never terrible; otherwise it is if its time is unknown, more than ten
      minutes ahead or more than thirty days ago, if three attempts have failed without any success, or if ten have
      failed since a success more than a week ago.  Times are in seconds. */
  lemma TerribleWhen(i: Info, now: int)
    ensures i.nLastTry != 0 && now - i.nLastTry <= 60 ==> !IsTerrible(i, now)
    ensures i.nLastTry == 0 || now - i.nLastTry > 60 ==>
              (IsTerrible(i, now) <==>
                || i.nTime == 0 || i.nTime - now > 600 || now - i.nTime > 2592000
                || (i.nAttempts >= 3 && i.nLastSuccess == 0)
                || (i.nAttempts >= 10 && now - i.nLastSuccess > 604800))
  {
  }

  /** `Find`: the id of a network address. */
  function Find(s: Tables, ip: Ip): Option<int> {
    if ip in s.mapAddr && s.mapAddr[ip] in s.mapInfo then Some(s.mapAddr[ip]) else None
  }

  /** Whatever the address map knows has an entry. */
  lemma FindIsMap(cfg: Config, s: Tables, ip: Ip)
    requires Inv(cfg, s)
    ensures Find(s, ip) == Get(s.mapAddr, ip)
    ensures Find(s, ip).Some? ==> s.mapInfo[Find(s, ip).value].addr.ip == ip
  {
    if ip in s.mapAddr { assert AddressOk(s, ip); }
  }

  // ---------------------------------------------------------------- MakeTried

  /** The first loop of `MakeTried`: the entry is removed from the first `n` "new" buckets. */
  function Stripped(cfg: Config, s: Tables, id: int, n: nat): (r: Tables)
    requires id in s.mapInfo
    ensures r.mapInfo.Keys == s.mapInfo.Keys && r.mapInfo[id].addr == s.mapInfo[id].addr
  {
    if n == 0 then s
    else
      var s' := Stripped(cfg, s, id, n - 1);
      var t := NewSlot(cfg, n - 1, s.mapInfo[id].addr);
      if Get(s'.vvNew, t) == Some(id) then Dropped(s', t) else s'
  }

  /** Nothing but the entry's references changes. */
  ghost predicate OnlyReferences(s: Tables, r: Tables, id: int)
    requires id in s.mapInfo
  {
    && r == s.(vvNew := r.vvNew, mapInfo := r.mapInfo)
    && id in r.mapInfo
    && r.mapInfo == s.mapInfo[id := s.mapInfo[id].(nRefCount := r.mapInfo[id].nRefCount)]
  }

  lemma {:induction false} StrippedOnly(cfg: Config, s: Tables, id: int, n: nat)
    requires id in s.mapInfo
    ensures OnlyReferences(s, Stripped(cfg, s, id, n), id)
  {
    if n == 0 {
      assert s.mapInfo == s.mapInfo[id := s.mapInfo[id]];
    } else {
      StrippedOnly(cfg, s, id, n - 1);
    }
  }

  /** The entry is in limbo and no longer in any of the first `n` buckets. */
  lemma {:induction false} StrippedKeeps(cfg: Config, s: Tables, id: int, n: nat)
    requires Inv(cfg, s) && id in s.mapInfo && !s.mapInfo[id].fInTried && n <= cfg.newCount
    ensures Almost(cfg, Stripped(cfg, s, id, n), {id}, 0)
    ensures forall b :: 0 <= b < n ==>
            Get(Stripped(cfg, s, id, n).vvNew, NewSlot(cfg, b, s.mapInfo[id].addr)) != Some(id)
  {
    if n == 0 {
      EnterLimbo(cfg, s, id);
    } else {
      StrippedKeeps(cfg, s, id, n - 1);
      var s' := Stripped(cfg, s, id, n - 1);
      var t := NewSlot(cfg, n - 1, s.mapInfo[id].addr);
      if Get(s'.vvNew, t) == Some(id) {
        DroppedKeeps(cfg, s', t, {id}, 0);
        assert {id} + {id} == {id};
      }
    }
  }

  /** An entry of the "new" table may be regarded as in limbo. */
  lemma EnterLimbo(cfg: Config, s: Tables, id: int)
    requires Inv(cfg, s) && id in s.mapInfo && !s.mapInfo[id].fInTried
    ensures Almost(cfg, s, {id}, 0)
  {
    forall j | j in s.mapInfo ensures InfoOk(cfg, s, j, {id}) { assert InfoOk(cfg, s, j, {}); }
  }

  /** The assertion after the first loop of `MakeTried`: no reference is left. */
  lemma StrippedAll(cfg: Config, s: Tables, id: int)
    requires Inv(cfg, s) && id in s.mapInfo && !s.mapInfo[id].fInTried
    ensures Almost(cfg, Stripped(cfg, s, id, cfg.newCount), {id}, 0)
    ensures Stripped(cfg, s, id, cfg.newCount).mapInfo[id] == s.mapInfo[id].(nRefCount := 0)
    ensures OnlyReferences(s, Stripped(cfg, s, id, cfg.newCount), id)
  {
    var r := Stripped(cfg, s, id, cfg.newCount);
    StrippedKeeps(cfg, s, id, cfg.newCount);
    StrippedOnly(cfg, s, id, cfg.newCount);
    assert Buckets(cfg, r.vvNew, id, s.mapInfo[id].addr) == {};
    assert InfoOk(cfg, r, id, {id});
  }

  /** The middle of `MakeTried`: the entry of the wanted slot goes back to the "new" table, deleting
      whatever is at its place there. */
  function Evicted(cfg: Config, s: Tables, t: Slot): Tables
    requires CanEvict(cfg, s, t)
  {
    if t !in s.vvTried then s
    else
      var id := s.vvTried[t];
      var u := ClearedNew(Untried(s, t), EvictSlot(cfg, s, t));
      if id in u.mapInfo then Placed(u, id, EvictSlot(cfg, s, t), 1).(nNew := u.nNew + 1) else u
  }

  /** The slot of the "new" table for the entry of a slot of the "tried" table. */
  function EvictSlot(cfg: Config, s: Tables, t: Slot): Slot
    requires t in s.vvTried && s.vvTried[t] in s.mapInfo
  {
    var i := s.mapInfo[s.vvTried[t]];
    NewSlot(cfg, cfg.newBucket(i.addr, i.source), i.addr)
  }

  /** The entry is out of the "new" table and no longer counted there. */
  function Uncounted(cfg: Config, s: Tables, id: int): Tables
    requires id in s.mapInfo
  {
    Stripped(cfg, s, id, cfg.newCount).(nNew := Stripped(cfg, s, id, cfg.newCount).nNew - 1)
  }

  /** The assertions of `MakeTried` about the entry to be evicted. */
  ghost predicate CanEvict(cfg: Config, s: Tables, t: Slot) {
    t in s.vvTried ==> s.vvTried[t] in s.mapInfo && CanClear(Untried(s, t), EvictSlot(cfg, s, t))
  }

  function MadeTried(cfg: Config, s: Tables, id: int): Tables
    requires id in s.mapInfo && CanEvict(cfg, Uncounted(cfg, s, id), TriedSlot(cfg, s.mapInfo[id].addr))
  {
    var t := TriedSlot(cfg, s.mapInfo[id].addr);
    var s2 := Evicted(cfg, Uncounted(cfg, s, id), t);
    if id in s2.mapInfo then Tried(s2, id, t) else s2
  }

  /** An entry without references holds no slot that could be cleared. */
  lemma LimboHoldsNothing(cfg: Config, s: Tables, t: Slot, limbo: set<int>, missing: int)
    requires Almost(cfg, s, limbo, missing)
    requires forall j :: j in limbo && j in s.mapInfo ==> s.mapInfo[j].nRefCount == 0
    ensures t in s.vvNew ==> s.vvNew[t] !in limbo
  {
    if t in s.vvNew {
      var id := s.vvNew[t];
      assert NewOk(cfg, s, t);
      assert InfoOk(cfg, s, id, limbo);
      if id in limbo { NotInNewTable(cfg, s, id, limbo, t); }
    }
  }

  /** Eviction: the "tried" slot is empty, the evicted entry is in the "new" table with one reference,
      the assertions on the way hold, and the entry being moved is untouched. */
  lemma EvictedKeeps(cfg: Config, s: Tables, id: int, t: Slot)
    requires ConfigOk(cfg) && Almost(cfg, s, {id}, 1) && id in s.mapInfo && !s.mapInfo[id].fInTried
             && s.mapInfo[id].nRefCount == 0
    requires t in s.vvTried
    ensures CanEvict(cfg, s, t)
    ensures var r, n, e := Evicted(cfg, s, t), EvictSlot(cfg, s, t), s.vvTried[t];
            && Almost(cfg, r, {id}, 1) && t !in r.vvTried
            && id in r.mapInfo && SameButPlace(s.mapInfo[id], r.mapInfo[id])
            && e in r.mapInfo && !r.mapInfo[e].fInTried && r.mapInfo[e].nRefCount == 1 && Get(r.vvNew, n) == Some(e)
  {
    var e := s.vvTried[t];
    assert TriedOk(cfg, s, t);
    assert InfoOk(cfg, s, e, {id});
    UntriedKeeps(cfg, s, t, {id}, 1);
    var u, n := Untried(s, t), EvictSlot(cfg, s, t);
    var limbo := {id} + {e};
    LimboHoldsNothing(cfg, u, n, limbo, 2);
    ClearedKeeps(cfg, u, n, limbo, 2);
    ClearedTables(u, n);
    EvictedRest(cfg, u, id, e, n, limbo);
  }

  /** The last steps of eviction. */
  lemma EvictedRest(cfg: Config, u: Tables, id: int, e: int, n: Slot, limbo: set<int>)
    requires ConfigOk(cfg) && CanClear(u, n) && Almost(cfg, ClearedNew(u, n), limbo, 2) && limbo == {id} + {e}
             && id != e
    requires id in u.mapInfo && e in u.mapInfo && (n in u.vvNew ==> u.vvNew[n] !in limbo)
    requires !u.mapInfo[e].fInTried && u.mapInfo[e].nRefCount == 0
    requires n == NewSlot(cfg, cfg.newBucket(u.mapInfo[e].addr, u.mapInfo[e].source), u.mapInfo[e].addr)
    ensures var c := ClearedNew(u, n);
            && e in c.mapInfo
            && var r := Placed(c, e, n, 1).(nNew := c.nNew + 1);
               && Almost(cfg, r, {id}, 1) && r.vvTried == u.vvTried
               && id in r.mapInfo && SameButPlace(u.mapInfo[id], r.mapInfo[id])
               && !r.mapInfo[e].fInTried && r.mapInfo[e].nRefCount == 1 && Get(r.vvNew, n) == Some(e)
  {
    var c := ClearedNew(u, n);
    ClearedRest(u, n, id);
    ClearedRest(u, n, e);
    ClearedTables(u, n);
    PlacedKeeps(cfg, c, e, n, limbo, 2);
    assert limbo - {e} == {id};
    CountOne(cfg, Placed(c, e, n, 1), {id}, 2);
  }

  /** Counting one more entry of the "new" table. */
  lemma CountOne(cfg: Config, s: Tables, limbo: set<int>, missing: int)
    requires Almost(cfg, s, limbo, missing)
    ensures Almost(cfg, s.(nNew := s.nNew + 1), limbo, missing - 1)
  {
    Recount(cfg, s, s.nNew + 1, limbo, missing);
  }

  lemma Recount(cfg: Config, s: Tables, n: int, limbo: set<int>, missing: int)
    requires Almost(cfg, s, limbo, missing)
    ensures Almost(cfg, s.(nNew := n), limbo, missing + s.nNew - n)
  {
    var r := s.(nNew := n);
    forall j | j in r.mapInfo ensures InfoOk(cfg, r, j, limbo) { assert InfoOk(cfg, s, j, limbo); }
    forall ip | ip in r.mapAddr ensures AddressOk(r, ip) { assert AddressOk(s, ip); }
    forall p | 0 <= p < |r.vRandom| ensures PlaceOk(r, p) { assert PlaceOk(s, p); }
    forall u | u in r.vvTried ensures TriedOk(cfg, r, u) { assert TriedOk(cfg, s, u); }
    forall u | u in r.vvNew ensures NewOk(cfg, r, u) { assert NewOk(cfg, s, u); }
  }

  /** `MakeTried` keeps the invariant and puts the entry at its canonical place. */
  lemma MadeTriedKeeps(cfg: Config, s: Tables, id: int)
    requires ConfigOk(cfg) && Inv(cfg, s) && id in s.mapInfo && !s.mapInfo[id].fInTried
             && s.mapInfo[id].nLastSuccess != 0
    ensures CanEvict(cfg, Uncounted(cfg, s, id), TriedSlot(cfg, s.mapInfo[id].addr))
    ensures var r := MadeTried(cfg, s, id);
            && Inv(cfg, r) && id in r.mapInfo && r.mapInfo[id].fInTried
               && Get(r.vvTried, TriedSlot(cfg, s.mapInfo[id].addr)) == Some(id)
            && r.mapInfo[id] == s.mapInfo[id].(nRefCount := 0, fInTried := true, nRandomPos := r.mapInfo[id].nRandomPos)
  {
    var s1 := Stripped(cfg, s, id, cfg.newCount);
    var t, s2 := TriedSlot(cfg, s.mapInfo[id].addr), Uncounted(cfg, s, id);
    StrippedAll(cfg, s, id);
    Recount(cfg, s1, s1.nNew - 1, {id}, 0);
    if t in s2.vvTried {
      EvictedKeeps(cfg, s2, id, t);
    }
    var s3 := Evicted(cfg, s2, t);
    TriedKeeps(cfg, s3, id, t, {id}, 1);
    assert {id} - {id} == {};
  }

  /** What moving to the "tried" table does: no entry is touched but the one moved, the one that was in
      its place, and the one whose place in the "new" table that one takes. */
  lemma MadeTriedEffect(cfg: Config, s: Tables, id: int, j: int)
    requires ConfigOk(cfg) && Inv(cfg, s) && id in s.mapInfo && !s.mapInfo[id].fInTried
             && s.mapInfo[id].nLastSuccess != 0
    requires j in s.mapInfo && j != id
    ensures CanEvict(cfg, Uncounted(cfg, s, id), TriedSlot(cfg, s.mapInfo[id].addr))
    ensures var r, t, s2 := MadeTried(cfg, s, id), TriedSlot(cfg, s.mapInfo[id].addr), Uncounted(cfg, s, id);
            && (t !in s.vvTried ==> j in r.mapInfo && SameButPlace(s.mapInfo[j], r.mapInfo[j]))
            && (t in s.vvTried ==> t in s2.vvTried && s2.vvTried[t] in s2.mapInfo)
            && (t in s.vvTried && j != s.vvTried[t] && Get(s.vvNew, EvictSlot(cfg, s2, t)) != Some(j) ==>
                  j in r.mapInfo && SameButPlace(s.mapInfo[j], r.mapInfo[j]))
  {
    MadeTriedKeeps(cfg, s, id);
    StrippedAll(cfg, s, id);
    var t, s2 := TriedSlot(cfg, s.mapInfo[id].addr), Uncounted(cfg, s, id);
    assert s2.mapInfo[j] == s.mapInfo[j];
    if t in s2.vvTried {
      var u, n := Untried(s2, t), EvictSlot(cfg, s2, t);
      StrippedSlots(cfg, s, id, cfg.newCount, n);
      if j != s2.vvTried[t] && Get(s.vvNew, n) != Some(j) { ClearedRest(u, n, j); }
    }
  }

  /** Eviction changes of the evicted entry its table only, and of the "new" table that entry's slot only. */
  lemma EvictedEntry(cfg: Config, s: Tables, id: int, t: Slot)
    requires ConfigOk(cfg) && Almost(cfg, s, {id}, 1) && id in s.mapInfo && !s.mapInfo[id].fInTried
             && s.mapInfo[id].nRefCount == 0
    requires t in s.vvTried
    ensures CanEvict(cfg, s, t)
    ensures var r, e := Evicted(cfg, s, t), s.vvTried[t];
            && e in r.mapInfo && r.vvNew == s.vvNew[EvictSlot(cfg, s, t) := e]
            && r.mapInfo[e] ==
                 s.mapInfo[e].(fInTried := false, nRefCount := 1, nRandomPos := r.mapInfo[e].nRandomPos)
  {
    var e := s.vvTried[t];
    EvictedKeeps(cfg, s, id, t);
    assert TriedOk(cfg, s, t);
    assert InfoOk(cfg, s, e, {id});
    UntriedKeeps(cfg, s, t, {id}, 1);
    var u, n := Untried(s, t), EvictSlot(cfg, s, t);
    if n in u.vvNew {
      assert NewOk(cfg, s, n);
      assert InfoOk(cfg, s, s.vvNew[n], {id});
    }
    ClearedRest(u, n, e);
    ClearedTables(u, n);
  }

  /** The entry that was in the place of the one moved keeps what is known of it, and gets the slot of its own source in
      the "new" table; all other slots there are as they were, except those of the entry moved, which are empty. */
  lemma MadeTriedEvicts(cfg: Config, s: Tables, id: int, u: Slot)
    requires ConfigOk(cfg) && Inv(cfg, s) && id in s.mapInfo && !s.mapInfo[id].fInTried
             && s.mapInfo[id].nLastSuccess != 0
    requires TriedSlot(cfg, s.mapInfo[id].addr) in s.vvTried
    ensures CanEvict(cfg, Uncounted(cfg, s, id), TriedSlot(cfg, s.mapInfo[id].addr))
    ensures var r, e := MadeTried(cfg, s, id), s.vvTried[TriedSlot(cfg, s.mapInfo[id].addr)];
            && e in s.mapInfo && e in r.mapInfo
            && r.mapInfo[e] ==
                 s.mapInfo[e].(fInTried := false, nRefCount := 1, nRandomPos := r.mapInfo[e].nRandomPos)
            && var b := cfg.newBucket(s.mapInfo[e].addr, s.mapInfo[e].source);
               Get(r.vvNew, u) == if u == (b, cfg.position(true, b, s.mapInfo[e].addr)) then Some(e)
                                  else if Get(s.vvNew, u) == Some(id) then None else Get(s.vvNew, u)
  {
    StrippedAll(cfg, s, id);
    var s1, t, s2 := Stripped(cfg, s, id, cfg.newCount), TriedSlot(cfg, s.mapInfo[id].addr), Uncounted(cfg, s, id);
    Recount(cfg, s1, s1.nNew - 1, {id}, 0);
    var e := s.vvTried[t];
    assert TriedOk(cfg, s, t);
    EvictedEntry(cfg, s2, id, t);
    StrippedSlots(cfg, s, id, cfg.newCount, u);
    if Get(s2.vvNew, u) == Some(id) { StillReferenced(cfg, s2, u, id); }
  }

  lemma StillReferenced(cfg: Config, s: Tables, u: Slot, id: int)
    requires Almost(cfg, s, {id}, 1) && Get(s.vvNew, u) == Some(id)
    ensures id in s.mapInfo && s.mapInfo[id].nRefCount > 0
  {
    assert NewOk(cfg, s, u);
    assert InfoOk(cfg, s, id, {id});
    assert u.0 in Buckets(cfg, s.vvNew, id, s.mapInfo[id].addr);
  }

  /** The first loop of `MakeTried` empties slots of that entry only. */
  lemma {:induction false} StrippedSlots(cfg: Config, s: Tables, id: int, n: nat, u: Slot)
    requires id in s.mapInfo
    ensures Get(Stripped(cfg, s, id, n).vvNew, u) == Get(s.vvNew, u)
            || (Get(s.vvNew, u) == Some(id) && u !in Stripped(cfg, s, id, n).vvNew)
  {
    if n > 0 { StrippedSlots(cfg, s, id, n - 1, u); }
  }

  // ---------------------------------------------------------------- Good_, Attempt_, Connected_

  /** The entry of exactly this service, including its port. */
  function FindService(s: Tables, addr: Service): Option<int> {
    var f := Find(s, addr.ip);
    if f.Some? && s.mapInfo[f.value].addr == addr then f else None
  }

  function Seen(i: Info, nTime: int): Info {
    i.(nLastSuccess := nTime, nLastTry := nTime, nAttempts := 0)
  }

  /** An entry outside the "tried" table is in some "new" bucket, so `Good_` never gives up. */
  lemma InSomeBucket(cfg: Config, s: Tables, id: int) returns (b: int)
    requires Inv(cfg, s) && id in s.mapInfo && !s.mapInfo[id].fInTried
    ensures 0 <= b < cfg.newCount && Get(s.vvNew, NewSlot(cfg, b, s.mapInfo[id].addr)) == Some(id)
  {
    assert InfoOk(cfg, s, id, {});
    var bs := Buckets(cfg, s.vvNew, id, s.mapInfo[id].addr);
    assert bs != {};
    b :| b in bs;
  }

  lemma SeenKeeps(cfg: Config, s: Tables, id: int, nTime: int)
    requires Inv(cfg, s) && id in s.mapInfo && nTime > 0
    ensures Inv(cfg, WithInfo(s, id, Seen(s.mapInfo[id], nTime)))
  {
    StatsKeep(cfg, s, id, Seen(s.mapInfo[id], nTime));
  }

  function Good(cfg: Config, s: Tables, addr: Service, nTime: int): Tables
    requires ConfigOk(cfg) && Inv(cfg, s) && nTime > 0
  {
    var f := FindService(s, addr);
    if f == None then s
    else
      var s1 := WithInfo(s, f.value, Seen(s.mapInfo[f.value], nTime));
      if s1.mapInfo[f.value].fInTried then s1
      else
        SeenKeeps(cfg, s, f.value, nTime);
        MadeTriedKeeps(cfg, s1, f.value);
        MadeTried(cfg, s1, f.value)
  }

  /** `Good_` keeps the invariant, and the entry of that service is then in the "tried" table. */
  lemma GoodKeeps(cfg: Config, s: Tables, addr: Service, nTime: int)
    requires ConfigOk(cfg) && Inv(cfg, s) && nTime > 0
    ensures var r := Good(cfg, s, addr, nTime);
            && Inv(cfg, r)
            && (FindService(s, addr) == None ==> r == s)
            && (FindService(s, addr).Some? ==>
                  var id := FindService(s, addr).value;
                  && id in r.mapInfo && r.mapInfo[id].fInTried && r.mapInfo[id].addr == addr
                  && r.mapInfo[id].nLastSuccess == nTime
                  && Get(r.vvTried, (cfg.triedBucket(addr), cfg.position(false, cfg.triedBucket(addr), addr))) ==
                     Some(id))
  {
    var f := FindService(s, addr);
    if f.Some? {
      var id := f.value;
      SeenKeeps(cfg, s, id, nTime);
      var s1 := WithInfo(s, id, Seen(s.mapInfo[id], nTime));
      assert InfoOk(cfg, s1, id, {});
      if !s1.mapInfo[id].fInTried { MadeTriedKeeps(cfg, s1, id); }
    }
  }

  /** The fields that no operation on statistics touches. */
  ghost predicate SameIdentity(i: Info, j: Info) {
    SamePlace(i, j) && j.source == i.source && j.nServices == i.nServices
  }

  /** Only the entry `id` may differ. */
  ghost predicate OnlyEntry(s: Tables, r: Tables, id: int) {
    r == s.(mapInfo := r.mapInfo) && r.mapInfo.Keys == s.mapInfo.Keys
    && forall j :: j in s.mapInfo && j != id ==> r.mapInfo[j] == s.mapInfo[j]
  }

  /** The entry of exactly this service: its attempts are forgotten, and this is the time of its last success and of
      its last attempt; the time it was last seen is left alone. */
  lemma GoodEffect(cfg: Config, s: Tables, addr: Service, nTime: int)
    requires ConfigOk(cfg) && Inv(cfg, s) && nTime > 0 && FindService(s, addr).Some?
    ensures var r, id := Good(cfg, s, addr, nTime), FindService(s, addr).value;
            && id in r.mapInfo && r.mapInfo[id].nAttempts == 0 && r.mapInfo[id].nLastSuccess == nTime
            && r.mapInfo[id].nLastTry == nTime && r.mapInfo[id].nTime == s.mapInfo[id].nTime
            && r.mapInfo[id].source == s.mapInfo[id].source && r.mapInfo[id].nServices == s.mapInfo[id].nServices
            && (s.mapInfo[id].fInTried ==> OnlyEntry(s, r, id) && SamePlace(s.mapInfo[id], r.mapInfo[id]))
  {
    var id := FindService(s, addr).value;
    SeenKeeps(cfg, s, id, nTime);
    var s1 := WithInfo(s, id, Seen(s.mapInfo[id], nTime));
    if !s1.mapInfo[id].fInTried { MadeTriedKeeps(cfg, s1, id); }
  }

  function Attempt(s: Tables, addr: Service, nTime: int): Tables {
    var f := FindService(s, addr);
    if f == None then s
    else WithInfo(s, f.value, s.mapInfo[f.value].(nLastTry := nTime, nAttempts := s.mapInfo[f.value].nAttempts + 1))
  }

  lemma AttemptKeeps(cfg: Config, s: Tables, addr: Service, nTime: int)
    requires Inv(cfg, s) && nTime >= 0
    ensures Inv(cfg, Attempt(s, addr, nTime))
  {
    var f := FindService(s, addr);
    if f.Some? {
      assert InfoOk(cfg, s, f.value, {});
      StatsKeep(cfg, s, f.value, s.mapInfo[f.value].(nLastTry := nTime, nAttempts := s.mapInfo[f.value].nAttempts + 1));
    }
  }

  /** An attempt is counted and its time recorded, for the entry of exactly this service and no other. */
  lemma AttemptEffect(cfg: Config, s: Tables, addr: Service, nTime: int)
    requires Inv(cfg, s)
    ensures var r := Attempt(s, addr, nTime);
            if addr.ip in s.mapAddr && s.mapAddr[addr.ip] in s.mapInfo
              && s.mapInfo[s.mapAddr[addr.ip]].addr == addr then
              var id := s.mapAddr[addr.ip];
              && OnlyEntry(s, r, id) && SameIdentity(s.mapInfo[id], r.mapInfo[id])
              && r.mapInfo[id].nAttempts == s.mapInfo[id].nAttempts + 1 && r.mapInfo[id].nLastTry == nTime
              && r.mapInfo[id].nTime == s.mapInfo[id].nTime && r.mapInfo[id].nLastSuccess == s.mapInfo[id].nLastSuccess
            else r == s
  {
    FindIsMap(cfg, s, addr.ip);
  }

  function Connected(s: Tables, addr: Service, nTime: int): Tables {
    var f := FindService(s, addr);
    if f == None || nTime - s.mapInfo[f.value].nTime <= 20 * MINUTE then s
    else WithInfo(s, f.value, s.mapInfo[f.value].(nTime := nTime))
  }

  lemma ConnectedKeeps(cfg: Config, s: Tables, addr: Service, nTime: int)
    requires Inv(cfg, s)
    ensures Inv(cfg, Connected(s, addr, nTime))
  {
    var f := FindService(s, addr);
    if f.Some? {
      assert InfoOk(cfg, s, f.value, {});
      StatsKeep(cfg, s, f.value, s.mapInfo[f.value].(nTime := nTime));
    }
  }

  /** A connection refreshes a time that is more than twenty minutes old, for the entry of exactly this service, and
      nothing else. */
  lemma ConnectedEffect(cfg: Config, s: Tables, addr: Service, nTime: int)
    requires Inv(cfg, s)
    ensures var r := Connected(s, addr, nTime);
            if addr.ip in s.mapAddr && s.mapAddr[addr.ip] in s.mapInfo
              && s.mapInfo[s.mapAddr[addr.ip]].addr == addr then
              var id := s.mapAddr[addr.ip];
              && OnlyEntry(s, r, id) && SameIdentity(s.mapInfo[id], r.mapInfo[id])
              && r.mapInfo[id].nAttempts == s.mapInfo[id].nAttempts && r.mapInfo[id].nLastTry == s.mapInfo[id].nLastTry
              && r.mapInfo[id].nLastSuccess == s.mapInfo[id].nLastSuccess
              && r.mapInfo[id].nTime == if s.mapInfo[id].nTime < nTime - 1200 then nTime else s.mapInfo[id].nTime
            else r == s
  {
    FindIsMap(cfg, s, addr.ip);
  }

  // ---------------------------------------------------------------- Add_

  /** The announced time and services are taken over. */
  function Refreshed(i: Info, addr: Address, penalty: int, now: int): Info {
    var interval := if now - addr.nTime < DAY then 60 * MINUTE else DAY;
    var newer := addr.nTime != 0 && (i.nTime == 0 || i.nTime < addr.nTime - interval - penalty);
    i.(nTime := if newer then Max(0, addr.nTime - penalty) else i.nTime, nServices := i.nServices + addr.nServices)
  }

  /** An announcement never makes an entry look older and never takes services away. */
  lemma RefreshNeverForgets(i: Info, addr: Address, penalty: int, now: int)
    requires i.nTime >= 0
    ensures var r := Refreshed(i, addr, penalty, now);
            && i.nTime <= r.nTime && (r.nTime != i.nTime ==> r.nTime == Max(0, addr.nTime - penalty))
            && i.nServices + addr.nServices == r.nServices && SamePlace(i, r)
  {
  }

  /** Whether a known entry gets a further reference; `lucky` is the outcome of the random test. */
  predicate WantsReference(i: Info, addr: Address, lucky: bool) {
    && !(addr.nTime == 0 || (i.nTime != 0 && addr.nTime <= i.nTime))
    && !i.fInTried && i.nRefCount != MAX_REFERENCES && (i.nRefCount > 0 ==> lucky)
  }

  /** Whether the entry of an occupied slot gives way. */
  predicate GivesWay(existing: Info, i: Info, now: int) {
    IsTerrible(existing, now) || (existing.nRefCount > 1 && i.nRefCount == 0)
  }

  /** The last part of `Add_`: the entry is put into its bucket for this source, or forgotten if
      there is no room and nothing refers to it. */
  ghost function Entered(cfg: Config, s: Tables, id: int, source: Ip, now: int): Tables
    requires ConfigOk(cfg) && Almost(cfg, s, {id}, 0) && id in s.mapInfo && !s.mapInfo[id].fInTried
  {
    var i := s.mapInfo[id];
    var t := NewSlot(cfg, cfg.newBucket(i.addr, source), i.addr);
    EnterSafe(cfg, s, id, t);
    if Get(s.vvNew, t) == Some(id) then s
    else if t !in s.vvNew || GivesWay(s.mapInfo[s.vvNew[t]], i, now) then
      var c := ClearedNew(s, t);
      Placed(c, id, t, c.mapInfo[id].nRefCount + 1)
    else if i.nRefCount == 0 then Deleted(s, id)
    else s
  }

  lemma EnterSafe(cfg: Config, s: Tables, id: int, t: Slot)
    requires Almost(cfg, s, {id}, 0) && id in s.mapInfo && !s.mapInfo[id].fInTried
    ensures t in s.vvNew ==> s.vvNew[t] in s.mapInfo
    ensures CanClear(s, t) && CanDelete(s, id)
    ensures Get(s.vvNew, t) != Some(id) ==> id in ClearedNew(s, t).mapInfo
  {
    ClearPossible(cfg, s, id, {id});
    if t in s.vvNew {
      assert NewOk(cfg, s, t);
      ClearPossible(cfg, s, s.vvNew[t], {id});
    }
    if Get(s.vvNew, t) != Some(id) { ClearedRest(s, t, id); }
  }

  /** Clearing the slot and putting the entry there. */
  lemma OverwrittenKeeps(cfg: Config, s: Tables, id: int, t: Slot)
    requires Almost(cfg, s, {id}, 0) && id in s.mapInfo && !s.mapInfo[id].fInTried
    requires s.mapInfo[id].nRefCount < MAX_REFERENCES && Get(s.vvNew, t) != Some(id)
    requires 0 <= t.0 < cfg.newCount && t == NewSlot(cfg, t.0, s.mapInfo[id].addr)
    ensures CanClear(s, t) && id in ClearedNew(s, t).mapInfo
    ensures Inv(cfg, Placed(ClearedNew(s, t), id, t, ClearedNew(s, t).mapInfo[id].nRefCount + 1))
  {
    ClearedKeeps(cfg, s, t, {id}, 0);
    ClearedRest(s, t, id);
    ClearedTables(s, t);
    PlacedKeeps(cfg, ClearedNew(s, t), id, t, {id}, 0);
    assert {id} - {id} == {};
  }

  /** Entering keeps the invariant if there was room for one more reference. */
  lemma EnteredKeeps(cfg: Config, s: Tables, id: int, source: Ip, now: int)
    requires ConfigOk(cfg) && Almost(cfg, s, {id}, 0) && id in s.mapInfo && !s.mapInfo[id].fInTried
    requires s.mapInfo[id].nRefCount < MAX_REFERENCES
    ensures Inv(cfg, Entered(cfg, s, id, source, now))
    ensures id in Entered(cfg, s, id, source, now).mapInfo ==>
              Get(Entered(cfg, s, id, source, now).mapAddr, s.mapInfo[id].addr.ip) == Some(id)
  {
    var i := s.mapInfo[id];
    var t := NewSlot(cfg, cfg.newBucket(i.addr, source), i.addr);
    EnterSafe(cfg, s, id, t);
    assert InfoOk(cfg, s, id, {id});
    if Get(s.vvNew, t) == Some(id) {
      assert t.0 in Buckets(cfg, s.vvNew, id, i.addr);
      ReferencedKeeps(cfg, s, id);
    } else if t !in s.vvNew || GivesWay(s.mapInfo[s.vvNew[t]], i, now) {
      OverwrittenKeeps(cfg, s, id, t);
    } else if i.nRefCount == 0 {
      DeletedKeeps(cfg, s, id, {id}, 0);
      assert {id} - {id} == {};
    } else {
      ReferencedKeeps(cfg, s, id);
    }
    if id in Entered(cfg, s, id, source, now).mapInfo {
      assert InfoOk(cfg, Entered(cfg, s, id, source, now), id, {});
    }
  }

  /** What entering does: no other entry is touched but the one in the slot, no other slot of either
      table changes, and the entry is known afterwards exactly if it has a reference. */
  lemma EnteredEffect(cfg: Config, s: Tables, id: int, source: Ip, now: int)
    requires ConfigOk(cfg) && Almost(cfg, s, {id}, 0) && id in s.mapInfo && !s.mapInfo[id].fInTried
    ensures var r := Entered(cfg, s, id, source, now);
            var t := NewSlot(cfg, cfg.newBucket(s.mapInfo[id].addr, source), s.mapInfo[id].addr);
            && r.vvTried == s.vvTried && (forall u :: u != t ==> Get(r.vvNew, u) == Get(s.vvNew, u))
            && (forall j :: j in s.mapInfo && j != id && Get(s.vvNew, t) != Some(j) ==>
               j in r.mapInfo && SameButPlace(s.mapInfo[j], r.mapInfo[j]))
            && (id in r.mapInfo <==> s.mapInfo[id].nRefCount > 0 || Get(r.vvNew, t) == Some(id))
            && (Get(r.vvNew, t) != Some(id) ==> r.vvNew == s.vvNew && t in s.vvNew)
            && (Get(r.vvNew, t) != Some(id) ==>
               s.vvNew[t] in s.mapInfo && !GivesWay(s.mapInfo[s.vvNew[t]], s.mapInfo[id], now))
  {
    var t := NewSlot(cfg, cfg.newBucket(s.mapInfo[id].addr, source), s.mapInfo[id].addr);
    EnterSafe(cfg, s, id, t);
    assert InfoOk(cfg, s, id, {id});
    if Get(s.vvNew, t) == Some(id) {
      assert t.0 in Buckets(cfg, s.vvNew, id, s.mapInfo[id].addr);
    } else if t !in s.vvNew || GivesWay(s.mapInfo[s.vvNew[t]], s.mapInfo[id], now) {
      OverwrittenEffect(s, id, t);
    } else if s.mapInfo[id].nRefCount == 0 {
      DeletedRest(s, id);
    }
  }

  /** Deleting an entry touches no other but for its place in the permutation. */
  lemma DeletedRest(s: Tables, id: int)
    requires CanDelete(s, id)
    ensures var r := Deleted(s, id);
            && id !in r.mapInfo && r.vvTried == s.vvTried && r.vvNew == s.vvNew
            && forall j :: j in s.mapInfo && j != id ==> j in r.mapInfo && SameButPlace(s.mapInfo[j], r.mapInfo[j])
  {
  }

  lemma OverwrittenEffect(s: Tables, id: int, t: Slot)
    requires CanClear(s, t) && id in s.mapInfo && Get(s.vvNew, t) != Some(id)
    ensures id in ClearedNew(s, t).mapInfo
    ensures var r := Placed(ClearedNew(s, t), id, t, ClearedNew(s, t).mapInfo[id].nRefCount + 1);
            && id in r.mapInfo && r.vvTried == s.vvTried && Get(r.vvNew, t) == Some(id)
            && (forall u :: u != t ==> Get(r.vvNew, u) == Get(s.vvNew, u))
            && (forall j :: j in s.mapInfo && j != id && Get(s.vvNew, t) != Some(j) ==>
               j in r.mapInfo && SameButPlace(s.mapInfo[j], r.mapInfo[j]))
  {
    ClearedTables(s, t);
    ClearedRest(s, t, id);
    forall j | j in s.mapInfo && Get(s.vvNew, t) != Some(j)
      ensures j in ClearedNew(s, t).mapInfo && SameButPlace(s.mapInfo[j], ClearedNew(s, t).mapInfo[j]) {
      ClearedRest(s, t, j);
    }
  }

  lemma ReferencedKeeps(cfg: Config, s: Tables, id: int)
    requires Almost(cfg, s, {id}, 0) && id in s.mapInfo && s.mapInfo[id].nRefCount > 0
    ensures Inv(cfg, s)
  {
    assert {} + {id} == {id};
    LeaveLimbo(cfg, s, id, {}, 0);
  }

  function NewcomerInfo(s: Tables, addr: Address, source: Ip, penalty: int): Info {
    NewInfo(addr.svc, Max(0, addr.nTime - penalty), addr.nServices, source, |s.vRandom|)
  }

  ghost function Add(cfg: Config, s: Tables, addr: Address, source: Ip, penalty: int, now: int,
                     lucky: bool): (Tables, bool)
    requires ConfigOk(cfg) && Inv(cfg, s)
  {
    if !cfg.routable(addr.svc.ip) then (s, false)
    else
      var f := Find(s, addr.svc.ip);
      if f.Some? then
        var s1 := WithInfo(s, f.value, Refreshed(s.mapInfo[f.value], addr, penalty, now));
        AddSafe(cfg, s, f.value, addr, penalty, now);
        if WantsReference(s1.mapInfo[f.value], addr, lucky) then (Entered(cfg, s1, f.value, source, now), false)
          else (s1, false)
      else
        var i := NewcomerInfo(s, addr, source, penalty);
        NewcomerSafe(cfg, s, addr, source, penalty);
        (Entered(cfg, Created(s, i), s.nIdCount, source, now), true)
  }

  lemma AddSafe(cfg: Config, s: Tables, id: int, addr: Address, penalty: int, now: int)
    requires Inv(cfg, s) && id in s.mapInfo
    ensures var s1 := WithInfo(s, id, Refreshed(s.mapInfo[id], addr, penalty, now));
            && Inv(cfg, s1) && s1.mapInfo[id].nRefCount <= MAX_REFERENCES
            && (!s1.mapInfo[id].fInTried ==> Almost(cfg, s1, {id}, 0))
  {
    assert InfoOk(cfg, s, id, {});
    StatsKeep(cfg, s, id, Refreshed(s.mapInfo[id], addr, penalty, now));
    var s1 := WithInfo(s, id, Refreshed(s.mapInfo[id], addr, penalty, now));
    if !s1.mapInfo[id].fInTried { EnterLimbo(cfg, s1, id); }
  }

  lemma NewcomerSafe(cfg: Config, s: Tables, addr: Address, source: Ip, penalty: int)
    requires Inv(cfg, s) && Find(s, addr.svc.ip) == None
    ensures Almost(cfg, Created(s, NewcomerInfo(s, addr, source, penalty)), {s.nIdCount}, 0)
  {
    FindIsMap(cfg, s, addr.svc.ip);
    CreatedKeeps(cfg, s, NewcomerInfo(s, addr, source, penalty), {}, 0);
    assert {} + {s.nIdCount} == {s.nIdCount};
  }

  /** `Add_` keeps the invariant, and reports whether a routable address was unknown. */
  lemma AddKeeps(cfg: Config, s: Tables, addr: Address, source: Ip, penalty: int, now: int, lucky: bool)
    requires ConfigOk(cfg) && Inv(cfg, s)
    ensures var (r, fNew) := Add(cfg, s, addr, source, penalty, now, lucky);
            Inv(cfg, r) && (fNew <==> cfg.routable(addr.svc.ip) && addr.svc.ip !in s.mapAddr)
  {
    FindIsMap(cfg, s, addr.svc.ip);
    if cfg.routable(addr.svc.ip) {
      var f := Find(s, addr.svc.ip);
      if f.Some? {
        AddSafe(cfg, s, f.value, addr, penalty, now);
        var s1 := WithInfo(s, f.value, Refreshed(s.mapInfo[f.value], addr, penalty, now));
        if WantsReference(s1.mapInfo[f.value], addr, lucky) { EnteredKeeps(cfg, s1, f.value, source, now); }
      } else {
        NewcomerSafe(cfg, s, addr, source, penalty);
        EnteredKeeps(cfg, Created(s, NewcomerInfo(s, addr, source, penalty)), s.nIdCount, source, now);
      }
    }
  }

  /** Entering an entry that has references keeps it, up to its references and its place. */
  lemma EnteredStays(cfg: Config, s: Tables, id: int, source: Ip, now: int)
    requires ConfigOk(cfg) && Almost(cfg, s, {id}, 0) && id in s.mapInfo && !s.mapInfo[id].fInTried
             && s.mapInfo[id].nRefCount > 0
    ensures var r := Entered(cfg, s, id, source, now);
            id in r.mapInfo && r.mapInfo[id] ==
              s.mapInfo[id].(nRefCount := r.mapInfo[id].nRefCount, nRandomPos := r.mapInfo[id].nRandomPos)
  {
    var t := NewSlot(cfg, cfg.newBucket(s.mapInfo[id].addr, source), s.mapInfo[id].addr);
    EnterSafe(cfg, s, id, t);
    if Get(s.vvNew, t) != Some(id) { ClearedRest(s, t, id); }
  }

  /** An announcement of a known address keeps its entry, never makes it look older and never takes
      services away. */
  lemma AddRemembers(cfg: Config, s: Tables, addr: Address, source: Ip, penalty: int, now: int, lucky: bool)
    requires ConfigOk(cfg) && Inv(cfg, s) && cfg.routable(addr.svc.ip) && addr.svc.ip in s.mapAddr
    ensures var r, id := Add(cfg, s, addr, source, penalty, now, lucky).0, s.mapAddr[addr.svc.ip];
            && id in s.mapInfo && id in r.mapInfo && r.mapInfo[id].addr == s.mapInfo[id].addr
            && r.mapInfo[id].nServices == s.mapInfo[id].nServices + addr.nServices
            && (s.mapInfo[id].nTime >= 0 ==> r.mapInfo[id].nTime >= s.mapInfo[id].nTime)
  {
    FindIsMap(cfg, s, addr.svc.ip);
    var id := s.mapAddr[addr.svc.ip];
    AddSafe(cfg, s, id, addr, penalty, now);
    var s1 := WithInfo(s, id, Refreshed(s.mapInfo[id], addr, penalty, now));
    if s.mapInfo[id].nTime >= 0 { RefreshNeverForgets(s.mapInfo[id], addr, penalty, now); }
    if WantsReference(s1.mapInfo[id], addr, lucky) {
      assert InfoOk(cfg, s1, id, {});
      EnteredStays(cfg, s1, id, source, now);
    }
  }

  /** The occupant of a slot, if any, lets a newcomer in: it is terrible or has other references. */
  predicate LetsIn(s: Tables, t: Slot, now: int) {
    t in s.vvNew && s.vvNew[t] in s.mapInfo ==>
      IsTerrible(s.mapInfo[s.vvNew[t]], now) || s.mapInfo[s.vvNew[t]].nRefCount > 1
  }

  /** A newcomer in its slot: what is stored of it, and what the occupant loses. */
  ghost predicate Settled(s: Tables, r: Tables, t: Slot, addr: Address, source: Ip, penalty: int) {
    var id := s.nIdCount;
    && Get(r.vvNew, t) == Some(id) && Get(r.mapAddr, addr.svc.ip) == Some(id) && id in r.mapInfo
    && r.mapInfo[id] == Info(addr.svc, source, if addr.nTime > penalty then addr.nTime - penalty else 0, addr.nServices,
                             0, 0, 0, 1, false, r.mapInfo[id].nRandomPos)
    && (t in s.vvNew && s.vvNew[t] in s.mapInfo ==>
          (s.vvNew[t] in r.mapInfo <==> s.mapInfo[s.vvNew[t]].nRefCount > 1))
  }

  /** The slot's occupant after it has been cleared. */
  lemma ClearedOccupant(s: Tables, t: Slot, id: int)
    requires CanClear(s, t) && t in s.vvNew && s.vvNew[t] in s.mapInfo && id in s.mapInfo && id != s.vvNew[t]
    requires s.mapInfo[id].addr.ip != s.mapInfo[s.vvNew[t]].addr.ip
    ensures var c, o := ClearedNew(s, t), s.vvNew[t];
            && (o in c.mapInfo <==> s.mapInfo[o].nRefCount != 1)
            && Get(c.mapAddr, s.mapInfo[id].addr.ip) == Get(s.mapAddr, s.mapInfo[id].addr.ip)
  {
  }

  /** What `Add_` does with an unknown address: it settles in the slot for this source exactly if that is free or
      its occupant lets it in, and is forgotten otherwise; nothing else changes. */
  lemma NewcomerEffect(cfg: Config, s: Tables, addr: Address, source: Ip, penalty: int, now: int, lucky: bool)
    requires ConfigOk(cfg) && Inv(cfg, s) && cfg.routable(addr.svc.ip) && addr.svc.ip !in s.mapAddr
    ensures var r := Add(cfg, s, addr, source, penalty, now, lucky).0;
            var b := cfg.newBucket(addr.svc, source);
            var t := (b, cfg.position(true, b, addr.svc));
            && r.vvTried == s.vvTried && r.nIdCount == s.nIdCount + 1
            && (if LetsIn(s, t, now) then Settled(s, r, t, addr, source, penalty)
                else addr.svc.ip !in r.mapAddr && r.vvNew == s.vvNew && s.nIdCount !in r.mapInfo)
            && (forall u :: u != t ==> Get(r.vvNew, u) == Get(s.vvNew, u))
            && (forall j :: j in s.mapInfo && Get(s.vvNew, t) != Some(j) ==>
                  j in r.mapInfo && SameButPlace(s.mapInfo[j], r.mapInfo[j]))
  {
    FindIsMap(cfg, s, addr.svc.ip);
    NewcomerSafe(cfg, s, addr, source, penalty);
    FreshId(cfg, s, {});
    var i, id := NewcomerInfo(s, addr, source, penalty), s.nIdCount;
    var c, t := Created(s, i), NewSlot(cfg, cfg.newBucket(addr.svc, source), addr.svc);
    EnteredEffect(cfg, c, id, source, now);
    EnteredKeeps(cfg, c, id, source, now);
    if t in s.vvNew { OccupantDiffers(cfg, s, t, addr.svc.ip); }
    if LetsIn(s, t, now) {
      EnterSafe(cfg, c, id, t);
      if t in s.vvNew { ClearedOccupant(c, t, id); }
      ClearedRest(c, t, id);
    } else {
      EnterSafe(cfg, c, id, t);
      DeletedAddress(c, id);
    }
  }

  lemma OccupantDiffers(cfg: Config, s: Tables, t: Slot, ip: Ip)
    requires Inv(cfg, s) && t in s.vvNew && ip !in s.mapAddr
    ensures s.vvNew[t] in s.mapInfo && s.mapInfo[s.vvNew[t]].addr.ip != ip && s.vvNew[t] != s.nIdCount
    ensures s.mapInfo[s.vvNew[t]].nRefCount > 0
  {
    assert NewOk(cfg, s, t);
    assert InfoOk(cfg, s, s.vvNew[t], {});
  }

  lemma DeletedAddress(s: Tables, id: int)
    requires CanDelete(s, id)
    ensures s.mapInfo[id].addr.ip !in Deleted(s, id).mapAddr && id !in Deleted(s, id).mapInfo
    ensures Deleted(s, id).vvNew == s.vvNew
  {
  }

  /** The time of a known entry after an announcement: the announced one less the penalty, if there is one and it is
      news by more than an hour, or by more than a day if it is itself more than a day old; times are in seconds. */
  lemma RefreshedTime(i: Info, addr: Address, penalty: int, now: int)
    ensures Refreshed(i, addr, penalty, now).nTime ==
              if addr.nTime == 0 then i.nTime
              else if i.nTime != 0
                && addr.nTime - i.nTime - penalty <= (if now - addr.nTime < 86400 then 3600 else 86400)
              then i.nTime
              else if addr.nTime > penalty then addr.nTime - penalty else 0
  {
  }

  /** When the known entry `id`, whose time is then `nTime`, gets a further reference for slot `t`. */
  predicate GainsReference(s: Tables, id: int, nTime: int, addr: Address, t: Slot, now: int, lucky: bool)
    requires id in s.mapInfo
  {
    && addr.nTime != 0 && (nTime == 0 || addr.nTime > nTime)
    && !s.mapInfo[id].fInTried && s.mapInfo[id].nRefCount < 8 && lucky && Get(s.vvNew, t) != Some(id)
    && (t in s.vvNew && s.vvNew[t] in s.mapInfo ==> IsTerrible(s.mapInfo[s.vvNew[t]], now))
  }

  /** What `Add_` does with a known address: besides time and services the entry gains one reference, in the slot for
      this source, exactly if it is not tried, has less than eight, wins the draw, and the slot is free or its
      occupant terrible; nobody else but that occupant changes. */
  lemma KnownEffect(cfg: Config, s: Tables, addr: Address, source: Ip, penalty: int, now: int, lucky: bool)
    requires ConfigOk(cfg) && Inv(cfg, s) && cfg.routable(addr.svc.ip) && addr.svc.ip in s.mapAddr
    ensures s.mapAddr[addr.svc.ip] in s.mapInfo
    ensures var r, id := Add(cfg, s, addr, source, penalty, now, lucky).0, s.mapAddr[addr.svc.ip];
            var b := cfg.newBucket(s.mapInfo[id].addr, source);
            var t := (b, cfg.position(true, b, s.mapInfo[id].addr));
            var i := Refreshed(s.mapInfo[id], addr, penalty, now);
            && r.vvTried == s.vvTried && id in r.mapInfo
            && (if GainsReference(s, id, i.nTime, addr, t, now, lucky) then
                  && r.vvNew == s.vvNew[t := id]
                  && r.mapInfo[id] == i.(nRefCount := i.nRefCount + 1, nRandomPos := r.mapInfo[id].nRandomPos)
                  && forall j :: j in s.mapInfo && j != id && Get(s.vvNew, t) != Some(j) ==>
                       j in r.mapInfo && SameButPlace(s.mapInfo[j], r.mapInfo[j])
                else r == WithInfo(s, id, i))
  {
    FindIsMap(cfg, s, addr.svc.ip);
    var id := s.mapAddr[addr.svc.ip];
    AddSafe(cfg, s, id, addr, penalty, now);
    var s1 := WithInfo(s, id, Refreshed(s.mapInfo[id], addr, penalty, now));
    var t := NewSlot(cfg, cfg.newBucket(s.mapInfo[id].addr, source), s.mapInfo[id].addr);
    assert InfoOk(cfg, s, id, {});
    if t in s.vvNew { assert NewOk(cfg, s, t); }
    if WantsReference(s1.mapInfo[id], addr, lucky) {
      EnterSafe(cfg, s1, id, t);
      if Get(s.vvNew, t) != Some(id) && (t !in s1.vvNew || GivesWay(s1.mapInfo[s1.vvNew[t]], s1.mapInfo[id], now)) {
        OverwrittenEffect(s1, id, t);
        ClearedTables(s1, t);
        ClearedRest(s1, t, id);
        assert (s.vvNew - {t})[t := id] == s.vvNew[t := id];
      }
    }
  }

  // ---------------------------------------------------------------- runs

  datatype Event =
    | AddEvent(addr: Address, source: Ip, penalty: int, now: int, lucky: bool)
    | GoodEvent(svc: Service, nTime: int)
    | AttemptEvent(svc: Service, nTime: int)
    | ConnectedEvent(svc: Service, nTime: int)
    | SwapEvent(p: nat, q: nat)                 // one round of `GetAddr_`

  /** Connection times are positive; `GetAddr_` draws places of the permutation. */
  ghost predicate Possible(s: Tables, e: Event) {
    match e
    case AddEvent(_, _, _, _, _) => true
    case GoodEvent(_, nTime) => nTime > 0
    case AttemptEvent(_, nTime) => nTime >= 0
    case ConnectedEvent(_, _) => true
    case SwapEvent(p, q) => p < |s.vRandom| && q < |s.vRandom|
  }

  /** Announcements, attempts and connections may happen at any time; a success has a positive one. */
  lemma WhatIsPossible(s: Tables, addr: Address, source: Ip, svc: Service, penalty: int, time: int, lucky: bool, p: nat,
    q: nat)
    ensures Possible(s, AddEvent(addr, source, penalty, time, lucky)) && Possible(s, ConnectedEvent(svc, time))
    ensures Possible(s, AttemptEvent(svc, time)) <==> time >= 0
    ensures Possible(s, GoodEvent(svc, time)) <==> time >= 1
    ensures Possible(s, SwapEvent(p, q)) <==> p < |s.vRandom| && q < |s.vRandom|
  {
  }

  ghost function After(cfg: Config, s: Tables, e: Event): Tables
    requires ConfigOk(cfg) && Inv(cfg, s) && Possible(s, e)
  {
    match e
    case AddEvent(addr, source, penalty, now, lucky) => Add(cfg, s, addr, source, penalty, now, lucky).0
    case GoodEvent(svc, nTime) => Good(cfg, s, svc, nTime)
    case AttemptEvent(svc, nTime) => Attempt(s, svc, nTime)
    case ConnectedEvent(svc, nTime) => Connected(s, svc, nTime)
    case SwapEvent(p, q) => SwapKeeps(cfg, s, p, q, {}, 0); SwapRandom(s, p, q)
  }

  /** `Clear` does not touch the entries and the addresses. */
  function Cleared(s: Tables): Tables {
    FRESH.(mapInfo := s.mapInfo, mapAddr := s.mapAddr)
  }

  lemma AddressesLead(s: Tables)
    requires Addresses(s)
    ensures forall ip :: ip in s.mapAddr ==> s.mapAddr[ip] in s.mapInfo
  {
    forall ip | ip in s.mapAddr ensures s.mapAddr[ip] in s.mapInfo { assert AddressOk(s, ip); }
  }

  lemma IdsBelow(cfg: Config, s: Tables)
    requires Infos(cfg, s, {})
    ensures forall id :: id in s.mapInfo ==> 0 <= id < s.nIdCount
  {
    forall id | id in s.mapInfo ensures 0 <= id < s.nIdCount { assert InfoOk(cfg, s, id, {}); }
  }

  /** Clearing gives a well-formed manager exactly if there were no entries. */
  lemma ClearedWhenEmpty(cfg: Config, s: Tables)
    requires Inv(cfg, s)
    ensures Inv(cfg, Cleared(s)) <==> s.mapInfo == map[]
    ensures s.mapInfo == map[] ==> Cleared(s) == FRESH
  {
    var r := Cleared(s);
    AddressesLead(s);
    if s.mapInfo == map[] {
      assert s.mapAddr == map[];
      assert NewIds(r.mapInfo) == {} && TriedIds(r.mapInfo) == {};
    } else if Inv(cfg, r) {
      IdsBelow(cfg, r);
      EmptyOrNot(r.mapInfo.Keys);
      assert false;
    }
  }

  ghost predicate IsRun(cfg: Config, states: seq<Tables>, events: seq<Event>) {
    && |states| == |events| + 1 && states[0] == FRESH
    && forall i :: 0 <= i < |events| && Inv(cfg, states[i]) ==>
         Possible(states[i], events[i]) && (ConfigOk(cfg) ==> states[i + 1] == After(cfg, states[i], events[i]))
  }

  /** Every run from an empty manager keeps the invariant. */
  lemma {:induction false} RunKeeps(cfg: Config, states: seq<Tables>, events: seq<Event>, n: nat)
    requires ConfigOk(cfg) && IsRun(cfg, states, events) && n < |states|
    ensures Inv(cfg, states[n])
  {
    if n == 0 {
      assert NewIds(FRESH.mapInfo) == {} && TriedIds(FRESH.mapInfo) == {};
    } else {
      RunKeeps(cfg, states, events, n - 1);
      var s := states[n - 1];
      match events[n - 1]
      case AddEvent(addr, source, penalty, now, lucky) => AddKeeps(cfg, s, addr, source, penalty, now, lucky);
      case GoodEvent(svc, nTime) => GoodKeeps(cfg, s, svc, nTime);
      case AttemptEvent(svc, nTime) => AttemptKeeps(cfg, s, svc, nTime);
      case ConnectedEvent(svc, nTime) => ConnectedKeeps(cfg, s, svc, nTime);
      case SwapEvent(p, q) => SwapKeeps(cfg, s, p, q, {}, 0);
    }
  }
}
