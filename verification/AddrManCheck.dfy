/** `CAddrMan::Check_` in `src/addrman.cpp` with its loops, and what it leaves out of the invariant. */
module AddrManCheck {
  import opened Options
  import opened Sets
  import opened AddrTables
  import opened AddrManager

  // ---------------------------------------------------------------- what is checked

  /** Looking up an unknown address with `[]` enters it with the id 0. */
  function AddressId(mapAddr: map<Ip, int>, ip: Ip): int {
    if ip in mapAddr then mapAddr[ip] else 0
  }

  predicate InfoChecked(s: Tables, id: int)
    requires id in s.mapInfo
  {
    var i := s.mapInfo[id];
    && (if i.fInTried then i.nLastSuccess != 0 && i.nRefCount == 0 else 0 < i.nRefCount <= MAX_REFERENCES)
    && AddressId(s.mapAddr, i.addr.ip) == id
    && 0 <= i.nRandomPos < |s.vRandom| && s.vRandom[i.nRandomPos] == id
    && i.nLastTry >= 0 && i.nLastSuccess >= 0
  }

  ghost predicate InfosChecked(s: Tables) {
    forall id {:trigger InfoChecked(s, id)} :: id in s.mapInfo ==> InfoChecked(s, id)
  }

  /** The canonical slot of a "tried" entry holds it. */
  ghost predicate InPlace(cfg: Config, s: Tables, id: int)
    requires id in s.mapInfo
  {
    s.mapInfo[id].fInTried ==> Get(s.vvTried, TriedSlot(cfg, s.mapInfo[id].addr)) == Some(id)
  }

  function References(cfg: Config, s: Tables, id: int): nat
    requires id in s.mapInfo
  {
    |Buckets(cfg, s.vvNew, id, s.mapInfo[id].addr)|
  }

  ghost predicate AllInPlace(cfg: Config, s: Tables) {
    forall id {:trigger InPlace(cfg, s, id)} :: id in s.mapInfo ==> InPlace(cfg, s, id)
  }

  ghost predicate ReferencesExact(cfg: Config, s: Tables) {
    forall id {:trigger References(cfg, s, id)} :: id in NewIds(s.mapInfo) ==>
      s.mapInfo[id].nRefCount == References(cfg, s, id)
  }

  ghost predicate Checked(cfg: Config, s: Tables) {
    && |s.vRandom| == s.nTried + s.nNew && InfosChecked(s)
    && |TriedIds(s.mapInfo)| == s.nTried && |NewIds(s.mapInfo)| == s.nNew
    && TriedTable(cfg, s) && NewTable(cfg, s) && AllInPlace(cfg, s) && ReferencesExact(cfg, s)
  }

  // ---------------------------------------------------------------- what the error codes mean

  predicate EntryFault(s: Tables, id: int, r: int)
    requires id in s.mapInfo
  {
    var i := s.mapInfo[id];
    || (r == -1 && i.fInTried && i.nLastSuccess == 0)
    || (r == -2 && i.fInTried && i.nRefCount != 0)
    || (r == -3 && !i.fInTried && (i.nRefCount < 0 || i.nRefCount > 8))
    || (r == -4 && !i.fInTried && i.nRefCount == 0)
    || (r == -5 && AddressId(s.mapAddr, i.addr.ip) != id)
    || (r == -14 && !(0 <= i.nRandomPos < |s.vRandom| && s.vRandom[i.nRandomPos] == id))
    || (r == -6 && i.nLastTry < 0)
    || (r == -8 && i.nLastSuccess < 0)
  }

  ghost predicate TriedFault(cfg: Config, s: Tables, t: Slot, r: int) {
    && t in s.vvTried
    && if r == -11 then !TriedOk(cfg, s, t)
       else
         && s.vvTried[t] in s.mapInfo
         && var a := s.mapInfo[s.vvTried[t]].addr;
            (r == -17 && cfg.triedBucket(a) != t.0) || (r == -18 && cfg.position(false, t.0, a) != t.1)
  }

  ghost predicate NewFault(cfg: Config, s: Tables, t: Slot, r: int) {
    && t in s.vvNew
    && if r == -12 then !NewTableFits(cfg, s)
       else r == -19 && s.vvNew[t] in s.mapInfo && cfg.position(true, t.0, s.mapInfo[s.vvNew[t]].addr) != t.1
  }

  ghost predicate TableFault(cfg: Config, s: Tables, r: int) {
    || (exists t {:trigger TriedFault(cfg, s, t, r)} :: TriedFault(cfg, s, t, r))
    || (exists t {:trigger NewFault(cfg, s, t, r)} :: NewFault(cfg, s, t, r))
    || (r == -13 && !AllInPlace(cfg, s))
    || (r == -15 && !ReferencesExact(cfg, s))
  }

  /** A fault for which the code `r` stands, in the state `s` before the check, or in the tables as they are
      afterwards, which differ in the addresses entered only. */
  ghost predicate Fault(cfg: Config, s: Tables, after: Tables, keyIsNull: bool, r: int) {
    || (r == -7 && |s.vRandom| != s.nTried + s.nNew)
    || (exists id {:trigger EntryFault(s, id, r)} :: id in s.mapInfo && EntryFault(s, id, r))
    || (r == -9 && |TriedIds(s.mapInfo)| != s.nTried)
    || (r == -10 && |NewIds(s.mapInfo)| != s.nNew)
    || TableFault(cfg, after, r)
    || (r == -16 && keyIsNull)
  }

  // ---------------------------------------------------------------- the loop over the "tried" table

  predicate Visited(t: Slot, n: int, i: int) {
    t.0 < n || (t.0 == n && t.1 < i)
  }

  lemma VisitedNext(t: Slot, n: int, i: int)
    ensures Visited(t, n, i + 1) <==> Visited(t, n, i) || t == (n, i)
  {
    assert t == (t.0, t.1);
  }

  /** The slots visited so far are right, and `setTried` are the ids that were not met. */
  ghost predicate TriedSoFar(cfg: Config, s: Tables, setTried: set<int>, n: int, i: int) {
    && (forall t {:trigger TriedOk(cfg, s, t)} :: t in s.vvTried && Visited(t, n, i) ==> TriedOk(cfg, s, t))
    && (forall id :: id in setTried ==> id in TriedIds(s.mapInfo))
    && (forall id :: id in TriedIds(s.mapInfo) ==> (id in setTried <==> !Met(cfg, s, id, n, i)))
  }

  predicate Met(cfg: Config, s: Tables, id: int, n: int, i: int)
    requires id in s.mapInfo
  {
    var t := TriedSlot(cfg, s.mapInfo[id].addr);
    Visited(t, n, i) && Get(s.vvTried, t) == Some(id)
  }

  /** One slot: its entry is met for the first time, at its own place, or the table is wrong. */
  lemma TriedRound(cfg: Config, s: Tables, setTried: set<int>, n: int, i: int)
    requires TriedSoFar(cfg, s, setTried, n, i) && (n, i) in s.vvTried
    ensures var id := s.vvTried[(n, i)];
            TriedOk(cfg, s, (n, i)) <==>
              id in setTried && id in s.mapInfo && TriedSlot(cfg, s.mapInfo[id].addr) == (n, i)
    ensures TriedOk(cfg, s, (n, i)) ==> TriedSoFar(cfg, s, setTried - {s.vvTried[(n, i)]}, n, i + 1)
  {
    var id := s.vvTried[(n, i)];
    if TriedOk(cfg, s, (n, i)) {
      assert !Met(cfg, s, id, n, i);
      forall t | t in s.vvTried && Visited(t, n, i + 1) ensures TriedOk(cfg, s, t) {
        VisitedNext(t, n, i);
      }
      var rest := setTried - {id};
      forall j | j in TriedIds(s.mapInfo) ensures j in rest <==> !Met(cfg, s, j, n, i + 1) { }
    }
  }

  ghost predicate InTable(m: map<Slot, int>, count: nat, size: nat) {
    forall t :: t in m ==> 0 <= t.0 < count && 0 <= t.1 < size
  }

  lemma TriedEmptySlot(cfg: Config, s: Tables, setTried: set<int>, n: int, i: int)
    requires TriedSoFar(cfg, s, setTried, n, i) && (n, i) !in s.vvTried
    ensures TriedSoFar(cfg, s, setTried, n, i + 1)
  {
    forall t | t in s.vvTried && Visited(t, n, i + 1) ensures TriedOk(cfg, s, t) {
      VisitedNext(t, n, i);
    }
    forall j | j in TriedIds(s.mapInfo) ensures j in setTried <==> !Met(cfg, s, j, n, i + 1) {
      VisitedNext(TriedSlot(cfg, s.mapInfo[j].addr), n, i);
    }
  }

  lemma TriedNextRow(cfg: Config, s: Tables, setTried: set<int>, n: int)
    requires TriedSoFar(cfg, s, setTried, n, cfg.bucketSize) && InTable(s.vvTried, cfg.triedCount, cfg.bucketSize)
    ensures TriedSoFar(cfg, s, setTried, n + 1, 0)
  {
    forall t | t in s.vvTried && Visited(t, n + 1, 0) ensures TriedOk(cfg, s, t) {
      assert Visited(t, n, cfg.bucketSize);
    }
    forall j | j in TriedIds(s.mapInfo) ensures Met(cfg, s, j, n + 1, 0) == Met(cfg, s, j, n, cfg.bucketSize) { }
  }

  lemma TriedStart(cfg: Config, s: Tables)
    requires InTable(s.vvTried, cfg.triedCount, cfg.bucketSize)
    ensures TriedSoFar(cfg, s, TriedIds(s.mapInfo), 0, 0)
  {
  }

  lemma TriedEnd(cfg: Config, s: Tables, setTried: set<int>)
    requires TriedSoFar(cfg, s, setTried, cfg.triedCount, 0) && InTable(s.vvTried, cfg.triedCount, cfg.bucketSize)
    ensures TriedTable(cfg, s)
    ensures setTried == {} <==> AllInPlace(cfg, s)
  {
    forall t | t in s.vvTried ensures TriedOk(cfg, s, t) { assert Visited(t, cfg.triedCount, 0); }
    forall id | id in TriedIds(s.mapInfo) ensures InPlace(cfg, s, id) <==> id !in setTried { }
    EmptyOrNot(setTried);
  }

  // ---------------------------------------------------------------- the loop over the "new" table

  /** The buckets visited so far that hold an entry. */
  function BucketsMet(cfg: Config, s: Tables, id: int, n: int, i: int): set<int>
    requires id in s.mapInfo
  {
    set b | b in Buckets(cfg, s.vvNew, id, s.mapInfo[id].addr) && Visited(NewSlot(cfg, b, s.mapInfo[id].addr), n, i)
  }

  /** How many references of an entry have not been met. */
  function Left(cfg: Config, s: Tables, id: int, n: int, i: int): int
    requires id in s.mapInfo
  {
    s.mapInfo[id].nRefCount - |BucketsMet(cfg, s, id, n, i)|
  }

  /** The slots visited so far are right, and `mapNew` counts the references that were not met. */
  ghost predicate NewSoFar(cfg: Config, s: Tables, mapNew: map<int, int>, n: int, i: int) {
    && (forall t {:trigger NewOk(cfg, s, t)} :: t in s.vvNew && Visited(t, n, i) ==> NewOk(cfg, s, t))
    && mapNew.Keys <= NewIds(s.mapInfo)
    && (forall id {:trigger Left(cfg, s, id, n, i)} :: id in NewIds(s.mapInfo) ==>
          Left(cfg, s, id, n, i) == if id in mapNew then mapNew[id] else 0)
    && (forall id :: id in mapNew ==> mapNew[id] > 0)
  }

  lemma OneMore(cfg: Config, s: Tables, id: int, n: int, i: int)
    requires id in s.mapInfo
    ensures var t := (n, i);
            Left(cfg, s, id, n, i + 1) == Left(cfg, s, id, n, i) -
              if 0 <= n < cfg.newCount && Get(s.vvNew, t) == Some(id)
                && t == NewSlot(cfg, n, s.mapInfo[id].addr) then 1 else 0
  {
    var more, m := BucketsMet(cfg, s, id, n, i + 1), BucketsMet(cfg, s, id, n, i);
    forall b | b in Buckets(cfg, s.vvNew, id, s.mapInfo[id].addr)
      ensures Visited(NewSlot(cfg, b, s.mapInfo[id].addr), n, i + 1) <==>
              Visited(NewSlot(cfg, b, s.mapInfo[id].addr), n, i) || NewSlot(cfg, b, s.mapInfo[id].addr) == (n, i)
    {
      VisitedNext(NewSlot(cfg, b, s.mapInfo[id].addr), n, i);
    }
    if 0 <= n < cfg.newCount && Get(s.vvNew, (n, i)) == Some(id) && (n, i) == NewSlot(cfg, n, s.mapInfo[id].addr) {
      assert n !in m;
      assert more == m + {n};
    } else {
      assert more == m;
    }
  }

  /** The count after one reference. */
  function Taken(mapNew: map<int, int>, id: int): map<int, int>
    requires id in mapNew
  {
    if mapNew[id] == 1 then mapNew - {id} else mapNew[id := mapNew[id] - 1]
  }

  /** One slot: its entry has a reference left and belongs there, or the table is wrong. */
  lemma NewRound(cfg: Config, s: Tables, mapNew: map<int, int>, n: int, i: int)
    requires NewSoFar(cfg, s, mapNew, n, i) && (n, i) in s.vvNew && 0 <= n < cfg.newCount
    ensures var id := s.vvNew[(n, i)];
            && (id in mapNew && (n, i) == NewSlot(cfg, n, s.mapInfo[id].addr) ==>
                  NewOk(cfg, s, (n, i)) && NewSoFar(cfg, s, Taken(mapNew, id), n, i + 1))
            && (id in mapNew && (n, i) != NewSlot(cfg, n, s.mapInfo[id].addr) ==> !NewOk(cfg, s, (n, i)))
            && (id !in mapNew && NewOk(cfg, s, (n, i)) ==> id in NewIds(s.mapInfo) && Left(cfg, s, id, n, i + 1) < 0)
  {
    var id := s.vvNew[(n, i)];
    if id in s.mapInfo { OneMore(cfg, s, id, n, i); }
    if id in mapNew && (n, i) == NewSlot(cfg, n, s.mapInfo[id].addr) {
      var rest := Taken(mapNew, id);
      assert id in NewIds(s.mapInfo);
      forall t | t in s.vvNew && Visited(t, n, i + 1) ensures NewOk(cfg, s, t) {
        VisitedNext(t, n, i);
      }
      forall j | j in NewIds(s.mapInfo) ensures Left(cfg, s, j, n, i + 1) == if j in rest then rest[j] else 0 {
        OneMore(cfg, s, j, n, i);
      }
    }
  }

  lemma NewEmptySlot(cfg: Config, s: Tables, mapNew: map<int, int>, n: int, i: int)
    requires NewSoFar(cfg, s, mapNew, n, i) && (n, i) !in s.vvNew
    ensures NewSoFar(cfg, s, mapNew, n, i + 1)
  {
    forall t | t in s.vvNew && Visited(t, n, i + 1) ensures NewOk(cfg, s, t) {
      VisitedNext(t, n, i);
    }
    forall j | j in NewIds(s.mapInfo) ensures Left(cfg, s, j, n, i + 1) == if j in mapNew then mapNew[j] else 0 {
      OneMore(cfg, s, j, n, i);
    }
  }

  lemma NewNextRow(cfg: Config, s: Tables, mapNew: map<int, int>, n: int)
    requires NewSoFar(cfg, s, mapNew, n, cfg.bucketSize) && InTable(s.vvNew, cfg.newCount, cfg.bucketSize)
    ensures NewSoFar(cfg, s, mapNew, n + 1, 0)
  {
    forall t | t in s.vvNew && Visited(t, n + 1, 0) ensures NewOk(cfg, s, t) { assert Visited(t, n, cfg.bucketSize); }
    forall j | j in NewIds(s.mapInfo) ensures Left(cfg, s, j, n + 1, 0) == Left(cfg, s, j, n, cfg.bucketSize) {
      assert BucketsMet(cfg, s, j, n + 1, 0) == BucketsMet(cfg, s, j, n, cfg.bucketSize);
    }
  }

  /** The counts that the first loop enters. */
  predicate CountsEntered(m: map<int, Info>, mapNew: map<int, int>) {
    mapNew.Keys == NewIds(m) && forall id :: id in mapNew ==> mapNew[id] == m[id].nRefCount
  }

  lemma NewStart(cfg: Config, s: Tables, mapNew: map<int, int>)
    requires InTable(s.vvNew, cfg.newCount, cfg.bucketSize) && CountsEntered(s.mapInfo, mapNew)
    requires forall id :: id in NewIds(s.mapInfo) ==> s.mapInfo[id].nRefCount > 0
    ensures NewSoFar(cfg, s, mapNew, 0, 0)
  {
    forall j | j in NewIds(s.mapInfo) ensures Left(cfg, s, j, 0, 0) == mapNew[j] {
      assert BucketsMet(cfg, s, j, 0, 0) == {};
    }
  }

  /** The references of an entry that were met are at most all. */
  lemma LeftAtEnd(cfg: Config, s: Tables, id: int, n: int, i: int)
    requires id in s.mapInfo
    ensures s.mapInfo[id].nRefCount - References(cfg, s, id) <= Left(cfg, s, id, n, i)
    ensures n == cfg.newCount ==> s.mapInfo[id].nRefCount - References(cfg, s, id) == Left(cfg, s, id, n, i)
  {
    var m, all := BucketsMet(cfg, s, id, n, i), Buckets(cfg, s.vvNew, id, s.mapInfo[id].addr);
    SubsetIsSmaller(m, all);
    if n == cfg.newCount { assert m == all; }
  }

  lemma NewEnd(cfg: Config, s: Tables, mapNew: map<int, int>)
    requires NewSoFar(cfg, s, mapNew, cfg.newCount, 0) && InTable(s.vvNew, cfg.newCount, cfg.bucketSize)
    ensures NewTable(cfg, s)
    ensures mapNew == map[] <==> ReferencesExact(cfg, s)
  {
    forall t | t in s.vvNew ensures NewOk(cfg, s, t) { assert Visited(t, cfg.newCount, 0); }
    forall id | id in NewIds(s.mapInfo) ensures s.mapInfo[id].nRefCount == References(cfg, s, id) <==> id !in mapNew {
      LeftAtEnd(cfg, s, id, cfg.newCount, 0);
    }
    EmptyOrNot(mapNew.Keys);
  }

  // ---------------------------------------------------------------- the code

  /** Only addresses with the id 0 are entered. */
  ghost predicate Entered(mapAddr: map<Ip, int>, after: map<Ip, int>) {
    mapAddr.Keys <= after.Keys && forall ip {:trigger ip in after} :: ip in after ==>
      after[ip] == AddressId(mapAddr, ip)
  }

  /** The first loop. */
  method CheckInfos(m: CAddrMan) returns (r: int, setTried: set<int>, mapNew: map<int, int>, ghost faulty: int)
    modifies m`mapAddr
    ensures Entered(old(m.mapAddr), m.mapAddr)
    ensures r == 0 <==> InfosChecked(old(m.Abs()))
    ensures r != 0 ==> faulty in m.mapInfo && EntryFault(old(m.Abs()), faulty, r)
    ensures r == 0 ==> setTried == TriedIds(m.mapInfo) && CountsEntered(m.mapInfo, mapNew)
  {
    ghost var s := m.Abs();
    setTried, mapNew, faulty := {}, map[], -1;
    var left := m.mapInfo.Keys;
    while left != {}
      invariant left <= m.mapInfo.Keys && Entered(s.mapAddr, m.mapAddr)
      invariant forall id {:trigger InfoChecked(s, id)} :: id in s.mapInfo && id !in left ==> InfoChecked(s, id)
      invariant setTried == TriedIds(s.mapInfo) - left && mapNew.Keys == NewIds(s.mapInfo) - left
      invariant forall id :: id in mapNew ==> mapNew[id] == s.mapInfo[id].nRefCount
    {
      EmptyOrNot(left);
      var n :| n in left;
      ghost var fine := InfoChecked(s, n);
      var info := m.mapInfo[n];
      if info.fInTried {
        if info.nLastSuccess == 0 { return -1, {}, map[], n; }
        if info.nRefCount != 0 { return -2, {}, map[], n; }
        setTried := setTried + {n};
      } else {
        if info.nRefCount < 0 || info.nRefCount > MAX_REFERENCES { return -3, {}, map[], n; }
        if info.nRefCount == 0 { return -4, {}, map[], n; }
        mapNew := mapNew[n := info.nRefCount];
      }
      if info.addr.ip !in m.mapAddr {
        m.mapAddr := m.mapAddr[info.addr.ip := 0];
      }
      if m.mapAddr[info.addr.ip] != n { return -5, {}, map[], n; }
      if info.nRandomPos < 0 || info.nRandomPos >= |m.vRandom| || m.vRandom[info.nRandomPos] != n {
        return -14, {}, map[], n;
      }
      if info.nLastTry < 0 { return -6, {}, map[], n; }
      if info.nLastSuccess < 0 { return -8, {}, map[], n; }
      left := left - {n};
    }
    r := 0;
  }

  /** One slot of the "tried" table. */
  method CheckTriedSlot(m: CAddrMan, setTried: set<int>, n: nat, i: nat) returns (r: int, rest: set<int>)
    requires m.Shape() && n < m.cfg.triedCount && i < m.cfg.bucketSize && TriedSoFar(m.cfg, m.Abs(), setTried, n, i)
    ensures r != 0 ==> !TriedTable(m.cfg, m.Abs()) && TriedFault(m.cfg, m.Abs(), (n, i), r)
    ensures r == 0 ==> TriedSoFar(m.cfg, m.Abs(), rest, n, i + 1)
  {
    r, rest := 0, setTried;
    var id := m.vvTried.Read(n, i);
    if id != -1 {
      TriedRound(m.cfg, m.Abs(), setTried, n, i);
      if id !in setTried { return -11, rest; }
      if m.cfg.triedBucket(m.mapInfo[id].addr) != n { return -17, rest; }
      if m.cfg.position(false, n, m.mapInfo[id].addr) != i { return -18, rest; }
      rest := setTried - {id};
    } else {
      TriedEmptySlot(m.cfg, m.Abs(), setTried, n, i);
    }
  }

  /** The loops over the "tried" table. */
  method CheckTried(m: CAddrMan, setTried: set<int>) returns (r: int, rest: set<int>)
    requires m.Shape() && setTried == TriedIds(m.mapInfo)
    ensures r == 0 <==> TriedTable(m.cfg, m.Abs())
    ensures r != 0 ==> TableFault(m.cfg, m.Abs(), r)
    ensures r == 0 ==> (rest == {} <==> AllInPlace(m.cfg, m.Abs()))
  {
    r, rest := 0, setTried;
    SlotsInTable(m);
    TriedStart(m.cfg, m.Abs());
    for n := 0 to m.cfg.triedCount
      invariant r == 0 && TriedSoFar(m.cfg, m.Abs(), rest, n, 0)
    {
      for i := 0 to m.cfg.bucketSize
        invariant r == 0 && TriedSoFar(m.cfg, m.Abs(), rest, n, i)
      {
        r, rest := CheckTriedSlot(m, rest, n, i);
        if r != 0 { return; }
      }
      TriedNextRow(m.cfg, m.Abs(), rest, n);
    }
    TriedEnd(m.cfg, m.Abs(), rest);
  }

  lemma SlotsInTable(m: CAddrMan)
    requires m.Shape()
    ensures InTable(m.vvTried.content, m.cfg.triedCount, m.cfg.bucketSize)
            && InTable(m.vvNew.content, m.cfg.newCount, m.cfg.bucketSize)
  {
    forall t | t in m.vvTried.content ensures m.vvTried.Has(t) { assert m.vvTried.Holds(t); }
    forall t | t in m.vvNew.content ensures m.vvNew.Has(t) { assert m.vvNew.Holds(t); }
  }

  /** The table is right and no entry is in more buckets than it has references. */
  ghost predicate NewTableFits(cfg: Config, s: Tables) {
    NewTable(cfg, s) && forall id {:trigger References(cfg, s, id)} :: id in NewIds(s.mapInfo) ==>
      s.mapInfo[id].nRefCount >= References(cfg, s, id)
  }

  /** One slot of the "new" table. */
  method CheckNewSlot(m: CAddrMan, mapNew: map<int, int>, n: nat, i: nat) returns (r: int, rest: map<int, int>)
    requires m.Shape() && n < m.cfg.newCount && i < m.cfg.bucketSize && NewSoFar(m.cfg, m.Abs(), mapNew, n, i)
    ensures r != 0 ==> !NewTableFits(m.cfg, m.Abs()) && NewFault(m.cfg, m.Abs(), (n, i), r)
    ensures r == 0 ==> NewSoFar(m.cfg, m.Abs(), rest, n, i + 1)
  {
    r, rest := 0, mapNew;
    var id := m.vvNew.Read(n, i);
    if id != -1 {
      NewRound(m.cfg, m.Abs(), mapNew, n, i);
      if id !in mapNew {
        if id in m.mapInfo { LeftAtEnd(m.cfg, m.Abs(), id, n, i + 1); }
        return -12, rest;
      }
      if m.cfg.position(true, n, m.mapInfo[id].addr) != i { return -19, rest; }
      rest := mapNew[id := mapNew[id] - 1];
      if rest[id] == 0 { rest := rest - {id}; }
      assert rest == Taken(mapNew, id);
    } else {
      NewEmptySlot(m.cfg, m.Abs(), mapNew, n, i);
    }
  }

  /** The loops over the "new" table. */
  method CheckNew(m: CAddrMan, mapNew: map<int, int>) returns (r: int, rest: map<int, int>)
    requires m.Shape() && CountsEntered(m.mapInfo, mapNew) && forall id :: id in NewIds(m.mapInfo) ==>
             m.mapInfo[id].nRefCount > 0
    ensures r != 0 ==> !NewTableFits(m.cfg, m.Abs()) && TableFault(m.cfg, m.Abs(), r)
    ensures r == 0 ==> NewTable(m.cfg, m.Abs())
    ensures r == 0 ==> (rest == map[] <==> ReferencesExact(m.cfg, m.Abs()))
  {
    r, rest := 0, mapNew;
    SlotsInTable(m);
    NewStart(m.cfg, m.Abs(), mapNew);
    for n := 0 to m.cfg.newCount
      invariant r == 0 && NewSoFar(m.cfg, m.Abs(), rest, n, 0)
    {
      for i := 0 to m.cfg.bucketSize
        invariant r == 0 && NewSoFar(m.cfg, m.Abs(), rest, n, i)
      {
        r, rest := CheckNewSlot(m, rest, n, i);
        if r != 0 { return; }
      }
      NewNextRow(m.cfg, m.Abs(), rest, n);
    }
    NewEnd(m.cfg, m.Abs(), rest);
  }

  /** The tables do not depend on the addresses. */
  lemma AddressesAside(cfg: Config, s: Tables, r: Tables)
    requires r == s.(mapAddr := r.mapAddr)
    ensures TriedTable(cfg, r) ==> TriedTable(cfg, s)
    ensures NewTable(cfg, r) ==> NewTable(cfg, s)
    ensures AllInPlace(cfg, r) ==> AllInPlace(cfg, s)
    ensures ReferencesExact(cfg, r) ==> ReferencesExact(cfg, s)
  {
    if TriedTable(cfg, r) {
      forall t | t in s.vvTried ensures TriedOk(cfg, s, t) { assert TriedOk(cfg, r, t); }
    }
    if NewTable(cfg, r) {
      forall t | t in s.vvNew ensures NewOk(cfg, s, t) { assert NewOk(cfg, r, t); }
    }
    if AllInPlace(cfg, r) {
      forall id | id in s.mapInfo ensures InPlace(cfg, s, id) { assert InPlace(cfg, r, id); }
    }
    if ReferencesExact(cfg, r) {
      forall id | id in NewIds(s.mapInfo) ensures s.mapInfo[id].nRefCount == References(cfg, s, id) {
        assert References(cfg, r, id) == References(cfg, s, id);
      }
    }
  }

  lemma ExactFits(cfg: Config, s: Tables)
    requires NewTable(cfg, s) && ReferencesExact(cfg, s)
    ensures NewTableFits(cfg, s)
  {
  }

  lemma EntriesCounted(s: Tables)
    requires InfosChecked(s)
    ensures forall id :: id in NewIds(s.mapInfo) ==> s.mapInfo[id].nRefCount > 0
  {
    forall id | id in NewIds(s.mapInfo) ensures s.mapInfo[id].nRefCount > 0 { assert InfoChecked(s, id); }
  }

  /** The loops over both tables, and what they have left. */
  method CheckTables(m: CAddrMan, setTried: set<int>, mapNew: map<int, int>) returns (r: int)
    requires m.Shape() && setTried == TriedIds(m.mapInfo) && CountsEntered(m.mapInfo, mapNew)
    requires forall id :: id in NewIds(m.mapInfo) ==> m.mapInfo[id].nRefCount > 0
    ensures r == 0 <==>
            TriedTable(m.cfg, m.Abs()) && NewTable(m.cfg, m.Abs()) && AllInPlace(m.cfg, m.Abs())
            && ReferencesExact(m.cfg, m.Abs())
    ensures r != 0 ==> TableFault(m.cfg, m.Abs(), r)
  {
    var restTried, restNew;
    r, restTried := CheckTried(m, setTried);
    if r != 0 { return; }
    r, restNew := CheckNew(m, mapNew);
    if r != 0 {
      if NewTable(m.cfg, m.Abs()) && ReferencesExact(m.cfg, m.Abs()) { ExactFits(m.cfg, m.Abs()); }
      return;
    }
    if restTried != {} { return -13; }
    if restNew != map[] { return -15; }
  }

  /** Zero exactly if everything is right and the key is not null, and otherwise the code of a fault that there
      is.  Which of several faults it is depends on the order of the tests. */
  method Check_(m: CAddrMan, keyIsNull: bool) returns (r: int)
    requires m.Shape()
    modifies m`mapAddr
    ensures r == 0 <==> Checked(m.cfg, old(m.Abs())) && !keyIsNull
    ensures r != 0 ==> Fault(m.cfg, old(m.Abs()), m.Abs(), keyIsNull, r)
    ensures Entered(old(m.mapAddr), m.mapAddr)
  {
    ghost var s := m.Abs();
    if |m.vRandom| != m.nTried + m.nNew { return -7; }
    var setTried, mapNew;
    ghost var faulty;
    r, setTried, mapNew, faulty := CheckInfos(m);
    if r != 0 { return; }
    if |setTried| != m.nTried { return -9; }
    assert mapNew.Keys == NewIds(m.mapInfo);
    if |mapNew.Keys| != m.nNew { return -10; }
    EntriesCounted(s);
    r := CheckTables(m, setTried, mapNew);
    AddressesAside(m.cfg, s, m.Abs());
    AddressesAside(m.cfg, m.Abs(), s);
    if r != 0 { return; }
    if keyIsNull { return -16; }
  }

  // ---------------------------------------------------------------- the check and the invariant

  /** What `Check_` does not look at: the numbers given so far, and addresses without an entry. */
  ghost predicate Unchecked(s: Tables) {
    && s.nIdCount >= 0 && Addresses(s)
    && forall id :: id in s.mapInfo ==> 0 <= id < s.nIdCount && s.mapInfo[id].addr.ip in s.mapAddr
  }

  /** The positions of some entries. */
  function PositionsOf(s: Tables, ids: set<int>): set<int>
    requires ids <= s.mapInfo.Keys
  {
    set id | id in ids :: s.mapInfo[id].nRandomPos
  }

  lemma {:induction false} AsManyPositions(s: Tables, ids: set<int>)
    requires InfosChecked(s) && ids <= s.mapInfo.Keys
    ensures |PositionsOf(s, ids)| == |ids|
    decreases ids
  {
    EmptyOrNot(ids);
    if id :| id in ids {
      var rest := ids - {id};
      AsManyPositions(s, rest);
      assert PositionsOf(s, ids) == PositionsOf(s, rest) + {s.mapInfo[id].nRandomPos};
      forall j | j in rest ensures s.mapInfo[j].nRandomPos != s.mapInfo[id].nRandomPos {
        assert InfoChecked(s, j) && InfoChecked(s, id);
      }
    }
  }

  lemma {:induction false} FullSubset(a: set<int>, n: nat)
    requires (forall x :: x in a ==> 0 <= x < n) && |a| == n
    ensures forall x :: 0 <= x < n ==> x in a
    decreases n
  {
    if n > 0 {
      if n - 1 in a {
        FullSubset(a - {n - 1}, n - 1);
        forall x | 0 <= x < n - 1 ensures x in a { assert x in a - {n - 1}; }
      } else {
        TooMany(a, n - 1);
      }
    }
  }

  lemma {:induction false} TooMany(a: set<int>, n: nat)
    requires forall x :: x in a ==> 0 <= x < n
    ensures |a| <= n
  {
    if n > 0 { TooMany(a - {n - 1}, n - 1); }
    EmptyOrNot(a);
  }

  /** As many entries as places, and each at its own: every place has one. */
  lemma CheckedRandom(cfg: Config, s: Tables)
    requires Checked(cfg, s)
    ensures Random(s)
  {
    var ps := PositionsOf(s, s.mapInfo.Keys);
    AsManyPositions(s, s.mapInfo.Keys);
    KeysSplit(s.mapInfo);
    forall x | x in ps ensures 0 <= x < |s.vRandom| {
      var id :| id in s.mapInfo && s.mapInfo[id].nRandomPos == x;
      assert InfoChecked(s, id);
    }
    FullSubset(ps, |s.vRandom|);
    forall p | 0 <= p < |s.vRandom| ensures PlaceOk(s, p) {
      assert p in ps;
      var id :| id in s.mapInfo && s.mapInfo[id].nRandomPos == p;
      assert InfoChecked(s, id);
    }
  }

  /** `Check_` tests the whole invariant but for what it does not look at. */
  lemma CheckIsInvariant(cfg: Config, s: Tables)
    ensures Inv(cfg, s) <==> Checked(cfg, s) && Unchecked(s)
  {
    if Inv(cfg, s) {
      InvChecked(cfg, s);
    }
    if Checked(cfg, s) && Unchecked(s) {
      CheckedRandom(cfg, s);
      forall id | id in s.mapInfo ensures InfoOk(cfg, s, id, {}) {
        assert InfoChecked(s, id) && InPlace(cfg, s, id);
        if s.mapInfo[id].fInTried { NoReferences(cfg, s, id); }
          else { assert s.mapInfo[id].nRefCount == References(cfg, s, id); }
      }
    }
  }

  /** A "tried" entry is in no "new" bucket. */
  lemma NoReferences(cfg: Config, s: Tables, id: int)
    requires NewTable(cfg, s) && id in s.mapInfo && s.mapInfo[id].fInTried
    ensures Buckets(cfg, s.vvNew, id, s.mapInfo[id].addr) == {}
  {
    forall b | 0 <= b < cfg.newCount ensures Get(s.vvNew, NewSlot(cfg, b, s.mapInfo[id].addr)) != Some(id) {
      var t := NewSlot(cfg, b, s.mapInfo[id].addr);
      if t in s.vvNew { assert NewOk(cfg, s, t); }
    }
  }

  lemma InvChecked(cfg: Config, s: Tables)
    requires Inv(cfg, s)
    ensures Checked(cfg, s) && Unchecked(s)
  {
    SizeIsSum(cfg, s);
    forall id | id in s.mapInfo
      ensures InfoChecked(s, id) && 0 <= id < s.nIdCount && s.mapInfo[id].addr.ip in s.mapAddr {
      assert InfoOk(cfg, s, id, {});
    }
    forall id | id in s.mapInfo ensures InPlace(cfg, s, id) { assert InfoOk(cfg, s, id, {}); }
    forall id | id in NewIds(s.mapInfo) ensures s.mapInfo[id].nRefCount == References(cfg, s, id) {
      assert InfoOk(cfg, s, id, {});
    }
  }
}
