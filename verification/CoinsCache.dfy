/** A stack of write-back caches over a database of unspent outputs (`CCoinsView`,
    `CCoinsViewCache` and `CCoinsModifier` in `src/coins.cpp`, `CCoinsViewDB` in `src/txdb.cpp`). */
module CoinsCache {
  import opened Options
  import opened Coins

  type TxId = nat

  datatype Entry = Entry(coins: Coins, isDirty: bool, isFresh: bool)

  /** A database, or a cache on top of another view.  `modifying` is the entry that an open
      `CCoinsModifier` refers to. */
  datatype View =
    | Db(db: map<TxId, Coins>)
    | Cache(base: View, entries: map<TxId, Entry>, modifying: Option<TxId>)

  // ---------------------------------------------------------------- the operations

  /** What `GetCoins` returns. */
  function Lookup(v: View, id: TxId): Option<Coins> {
    match v
    case Db(db) => Get(db, id)
    case Cache(base, entries, _) => if id in entries then Some(entries[id].coins) else Lookup(base, id)
  }

  /** The view after `GetCoins`: every cache on the way that lacked the record now has it. */
  function Fetched(v: View, id: TxId): View {
    match v
    case Db(_) => v
    case Cache(base, entries, m) =>
      if id in entries then v
      else
        match Lookup(base, id)
        case None => Cache(Fetched(base, id), entries, m)
        case Some(c) => Cache(Fetched(base, id), entries[id := Entry(c, false, c.IsPruned())], m)
  }

  /** `HaveCoins` of a cache looks at the output vector only. */
  predicate HaveCoins(v: View, id: TxId) {
    Lookup(v, id).Some? && Lookup(v, id).value.vout != []
  }

  /** `ModifyCoins` hands out the entry and marks it dirty. */
  function Opened(v: View, id: TxId): View
    requires v.Cache? && v.modifying == None
  {
    if id in v.entries then
      v.(entries := v.entries[id := v.entries[id].(isDirty := true)], modifying := Some(id))
    else
      var e := match Lookup(v.base, id)
               case None => Entry(EMPTY, true, true)
               case Some(c) => Entry(c, true, c.IsPruned());
      Cache(Fetched(v.base, id), v.entries[id := e], Some(id))
  }

  /** The destructor of `CCoinsModifier`, when the record has become `c`. */
  function Closed(v: View, id: TxId, c: Coins): View
    requires v.Cache? && id in v.entries
  {
    var e := v.entries[id].(coins := Cleaned(c));
    if e.isFresh && e.coins.IsPruned() then v.(entries := v.entries - {id}, modifying := None)
    else v.(entries := v.entries[id := e], modifying := None)
  }

  /** What `BatchWrite` of a cache makes of its own entry and the child's entry. */
  function Merged(ours: Option<Entry>, theirs: Entry): Option<Entry> {
    if !theirs.isDirty then ours
    else if ours == None then
      if theirs.coins.IsPruned() then None else Some(Entry(theirs.coins, true, true))
    else if ours.value.isFresh && theirs.coins.IsPruned() then None
    else Some(Entry(theirs.coins, true, ours.value.isFresh))
  }

  /** All entries of a child merged, in whatever order. */
  function MergedAll(ours: map<TxId, Entry>, theirs: map<TxId, Entry>): map<TxId, Entry> {
    map id | id in ours.Keys + theirs.Keys
          && (id in theirs ==> Merged(Get(ours, id), theirs[id]).Some?)
        :: if id in theirs then Merged(Get(ours, id), theirs[id]).value else ours[id]
  }

  /** The database writes dirty records and erases those without unspent outputs. */
  function Stored(db: map<TxId, Coins>, theirs: map<TxId, Entry>): map<TxId, Coins> {
    map id | id in db.Keys + theirs.Keys
          && (id in theirs && theirs[id].isDirty ==> !theirs[id].coins.IsPruned())
          && (id in db || theirs[id].isDirty)
        :: if id in theirs && theirs[id].isDirty then theirs[id].coins else db[id]
  }

  function BatchWritten(v: View, theirs: map<TxId, Entry>): View {
    match v
    case Db(db) => Db(Stored(db, theirs))
    case Cache(base, entries, m) => Cache(base, MergedAll(entries, theirs), m)
  }

  function Flushed(v: View): View
    requires v.Cache?
  {
    Cache(BatchWritten(v.base, v.entries), map[], v.modifying)
  }

  /** A view's own record of a transaction. */
  function Own(v: View, id: TxId): Option<Coins> {
    match v
    case Db(db) => Get(db, id)
    case Cache(_, entries, _) => if id in entries then Some(entries[id].coins) else None
  }

  /** The view `k` levels down, or the database. */
  function Below(v: View, k: nat): View {
    if k == 0 || v.Db? then v else Below(v.base, k - 1)
  }

  /** `GetCoins` returns the uppermost record, whether it has unspent outputs or not. */
  lemma {:induction false} LookupIsUppermost(v: View, id: TxId, k: nat)
    requires forall j :: 0 <= j < k ==> Own(Below(v, j), id) == None
    ensures Own(Below(v, k), id).Some? ==> Lookup(v, id) == Own(Below(v, k), id)
    ensures Below(v, k).Db? ==> Lookup(v, id) == Own(Below(v, k), id)
    decreases k
  {
    if k > 0 && v.Cache? {
      assert Own(Below(v, 0), id) == None;
      forall j | 0 <= j < k - 1 ensures Own(Below(v.base, j), id) == None {
        assert Own(Below(v, j + 1), id) == None;
      }
      LookupIsUppermost(v.base, id, k - 1);
    } else if k > 0 {
      assert Own(Below(v, 0), id) == None;
    }
  }

  // ---------------------------------------------------------------- what a view shows

  /** The unspent records of a view, where records without unspent outputs count as absent. */
  function Shown(v: View): map<TxId, Coins> {
    match v
    case Db(db) => map id | id in db && !db[id].IsPruned() :: db[id]
    case Cache(base, entries, _) =>
      var below := Shown(base);
      map id | id in below.Keys + entries.Keys && (id in entries ==> !entries[id].coins.IsPruned())
          :: if id in entries then entries[id].coins else below[id]
  }

  lemma SameMap<T>(s: map<TxId, T>, t: map<TxId, T>)
    requires forall id :: Get(s, id) == Get(t, id)
    ensures s == t
  {
    assert forall id :: id in s <==> Get(s, id).Some?;
    assert forall id :: id in t <==> Get(t, id).Some?;
    assert forall id :: id in s ==> Get(s, id) == Get(t, id);
  }

  /** What a cache shows of one record. */
  lemma ShownAt(v: View, id: TxId)
    requires v.Cache?
    ensures Get(Shown(v), id) == if id !in v.entries then Get(Shown(v.base), id)
                                 else if v.entries[id].coins.IsPruned() then None else Some(v.entries[id].coins)
  {
  }

  lemma {:induction false} ShownIsLookup(v: View, id: TxId)
    ensures id in Shown(v) <==> Lookup(v, id).Some? && !Lookup(v, id).value.IsPruned()
    ensures id in Shown(v) ==> Shown(v)[id] == Lookup(v, id).value
  {
    if v.Cache? && id !in v.entries { ShownIsLookup(v.base, id); }
  }

  /** The cache or database has its own record of a transaction. */
  predicate Holds(v: View, id: TxId) {
    v.Cache? ==> id in v.entries
  }

  /** What every entry of a cache says about the view below it. */
  ghost predicate EntryOk(base: View, id: TxId, e: Entry) {
    && IsClean(e.coins)
    && (e.isFresh ==> id !in Shown(base))
    && (!e.isFresh ==> Holds(base, id))
    && (!e.isDirty ==> Get(Shown(base), id) == if e.coins.IsPruned() then None else Some(e.coins))
  }

  /** A record that was created and spent above the view below, and need never reach it. */
  ghost predicate Useless(e: Entry) {
    e.isDirty && e.isFresh && e.coins.IsPruned()
  }

  /** The flags of every entry are right, and a record that need not be kept is not, unless it is being
      modified. */
  ghost predicate Wf(v: View) {
    match v
    case Db(db) => forall id :: id in db ==> IsClean(db[id]) && !db[id].IsPruned()
    case Cache(base, entries, m) =>
      && Wf(base)
      && (forall id :: id in entries ==> EntryOk(base, id, entries[id]))
      && (forall id :: id in entries && Useless(entries[id]) ==> m == Some(id))
      && (m.Some? ==> m.value in entries && entries[m.value].isDirty)
  }

  /** Whatever `GetCoins` returns is cleaned up. */
  lemma {:induction false} LookupClean(v: View, id: TxId)
    requires Wf(v) && Lookup(v, id).Some?
    ensures IsClean(Lookup(v, id).value)
  {
    if v.Cache? {
      if id in v.entries { assert EntryOk(v.base, id, v.entries[id]); } else { LookupClean(v.base, id); }
    }
  }

  /** `HaveCoins` is right although it only asks whether there are outputs at all. */
  lemma HaveCoinsIsExact(v: View, id: TxId)
    requires Wf(v)
    ensures HaveCoins(v, id) <==> id in Shown(v)
  {
    ShownIsLookup(v, id);
    if Lookup(v, id).Some? {
      LookupClean(v, id);
      CleanAndPruned(Lookup(v, id).value);
    }
  }

  // ---------------------------------------------------------------- reading

  /** The same view after some reads: nothing else is shown, and nothing is held no longer. */
  ghost predicate Grown(v: View, v': View) {
    && Wf(v') && Shown(v') == Shown(v) && v'.Cache? == v.Cache?
    && (v.Cache? ==> v'.modifying == v.modifying && forall id :: id in v.entries ==>
       id in v'.entries && v'.entries[id] == v.entries[id])
  }

  lemma EntryStaysOk(base: View, base': View, id: TxId, e: Entry)
    requires Grown(base, base') && EntryOk(base, id, e)
    ensures EntryOk(base', id, e)
  {
  }

  /** Entries above a view that only grew are still right. */
  lemma StaysOnTop(v: View, base': View)
    requires v.Cache? && Wf(v) && Grown(v.base, base')
    ensures Wf(v.(base := base')) && Shown(v.(base := base')) == Shown(v)
  {
    forall id | id in v.entries ensures EntryOk(base', id, v.entries[id]) {
      EntryStaysOk(v.base, base', id, v.entries[id]);
    }
  }

  /** Reading gives every cache down to the first record a copy of it that is not dirty, and that is fresh
      if the view below does not show it; nothing else changes. */
  ghost predicate Copied(v: View, v': View, id: TxId) {
    match v
    case Db(_) => v' == v
    case Cache(base, entries, m) =>
      && v'.Cache? && v'.modifying == m
      && (id in entries ==> v' == v)
      && (id !in entries ==>
            && Copied(base, v'.base, id)
            && v'.entries == match Lookup(base, id)
                             case None => entries
                             case Some(c) => entries[id := Entry(c, false, id !in Shown(base))])
  }

  lemma {:induction false} FetchedCopies(v: View, id: TxId)
    ensures Copied(v, Fetched(v, id), id)
  {
    if v.Cache? && id !in v.entries {
      FetchedCopies(v.base, id);
      ShownIsLookup(v.base, id);
    }
  }

  /** Reading changes nothing that any view of the stack shows, and keeps the discipline of flags. */
  lemma {:induction false} FetchedKeeps(v: View, id: TxId)
    requires Wf(v)
    ensures Grown(v, Fetched(v, id))
    ensures Lookup(v, id).Some? ==> Holds(Fetched(v, id), id)
  {
    if v.Cache? && id !in v.entries {
      FetchedKeeps(v.base, id);
      var u := v.(base := Fetched(v.base, id));
      StaysOnTop(v, Fetched(v.base, id));
      if Lookup(v.base, id).Some? {
        NewEntry(u, id, Lookup(v.base, id).value);
      }
    }
  }

  /** A map of unspent records after one record has become `c`. */
  function Put(m: map<TxId, Coins>, id: TxId, c: Coins): map<TxId, Coins> {
    if c.IsPruned() then m - {id} else m[id := c]
  }

  lemma ShownPut(v: View, id: TxId, e: Entry)
    requires v.Cache?
    ensures Shown(v.(entries := v.entries[id := e])) == Put(Shown(v), id, e.coins)
  {
    var u := v.(entries := v.entries[id := e]);
    forall i ensures Get(Shown(u), i) == Get(Put(Shown(v), id, e.coins), i) {
      ShownAt(u, i);
      ShownAt(v, i);
    }
    SameMap(Shown(u), Put(Shown(v), id, e.coins));
  }

  lemma PutSame(m: map<TxId, Coins>, id: TxId, c: Coins)
    requires Get(m, id) == if c.IsPruned() then None else Some(c)
    ensures Put(m, id, c) == m
  {
  }

  /** A right entry put into a cache, where a modifier of this entry may be opened or closed. */
  lemma PutWf(v: View, id: TxId, e: Entry, m: Option<TxId>)
    requires v.Cache? && Wf(v) && EntryOk(v.base, id, e)
    requires m == v.modifying || (m in [None, Some(id)] && v.modifying in [None, Some(id)])
    requires (m == Some(id) ==> e.isDirty) && (Useless(e) ==> m == Some(id))
    ensures Wf(v.(entries := v.entries[id := e], modifying := m))
  {
    var u := v.(entries := v.entries[id := e], modifying := m);
    forall i | i in u.entries ensures EntryOk(u.base, i, u.entries[i]) {
      if i != id { assert EntryOk(v.base, i, v.entries[i]); }
    }
  }

  /** A record pulled in from below. */
  lemma NewEntry(v: View, id: TxId, c: Coins)
    requires v.Cache? && Wf(v) && id !in v.entries
    requires Lookup(v.base, id) == Some(c) && Holds(v.base, id)
    ensures var u := v.(entries := v.entries[id := Entry(c, false, c.IsPruned())]);
            Wf(u) && Shown(u) == Shown(v)
  {
    ShownIsLookup(v.base, id);
    LookupClean(v.base, id);
    ShownIsLookup(v, id);
    var e := Entry(c, false, c.IsPruned());
    PutWf(v, id, e, v.modifying);
    ShownPut(v, id, e);
  }

  // ---------------------------------------------------------------- modifying

  /** A modifier hands out the record that `GetCoins` returns, or an empty one.  Only that entry changes, and
      becomes dirty; a new one is fresh exactly if the view below does not show it. */
  lemma OpenedEntries(v: View, id: TxId)
    requires v.Cache? && v.modifying == None && Wf(v)
    ensures Opened(v, id).modifying == Some(id)
    ensures if id in v.entries then Opened(v, id).base == v.base else Copied(v.base, Opened(v, id).base, id)
    ensures forall i :: i != id ==> Get(Opened(v, id).entries, i) == Get(v.entries, i)
    ensures var e := Opened(v, id).entries[id];
            && e.isDirty && (e.isFresh <==> if id in v.entries then v.entries[id].isFresh else id !in Shown(v.base))
            && e.coins == if Lookup(v, id).Some? then Lookup(v, id).value else Coins(false, false, [], 0, 0)
  {
    ShownIsLookup(v.base, id);
    FetchedCopies(v.base, id);
  }

  /** Opening a modifier changes nothing that is shown, and hands out what is shown. */
  lemma OpenedKeeps(v: View, id: TxId)
    requires v.Cache? && v.modifying == None && Wf(v)
    ensures Wf(Opened(v, id)) && Shown(Opened(v, id)) == Shown(v)
    ensures var c := Opened(v, id).entries[id].coins;
            Get(Shown(v), id) == if c.IsPruned() then None else Some(c)
  {
    if id in v.entries {
      OpenedHeld(v, id);
    } else {
      OpenedFetched(v, id);
    }
  }

  lemma OpenedHeld(v: View, id: TxId)
    requires v.Cache? && v.modifying == None && Wf(v) && id in v.entries
    ensures Wf(Opened(v, id)) && Shown(Opened(v, id)) == Shown(v) && Opened(v, id).base == v.base
    ensures var c := Opened(v, id).entries[id].coins;
            Get(Shown(v), id) == if c.IsPruned() then None else Some(c)
  {
    var e := v.entries[id].(isDirty := true);
    assert EntryOk(v.base, id, v.entries[id]);
    PutWf(v, id, e, Some(id));
    ShownPut(v, id, e);
    ShownAt(v, id);
    PutSame(Shown(v), id, e.coins);
  }

  lemma OpenedFetched(v: View, id: TxId)
    requires v.Cache? && v.modifying == None && Wf(v) && id !in v.entries
    ensures Wf(Opened(v, id)) && Shown(Opened(v, id)) == Shown(v) && Grown(v.base, Opened(v, id).base)
    ensures var c := Opened(v, id).entries[id].coins;
            Get(Shown(v), id) == if c.IsPruned() then None else Some(c)
  {
    var u := v.(base := Fetched(v.base, id));
    var e := Opened(v, id).entries[id];
    FetchedKeeps(v.base, id);
    StaysOnTop(v, u.base);
    OpenedEntry(v, id);
    PutWf(u, id, e, Some(id));
    ShownPut(u, id, e);
    PutSame(Shown(v), id, e.coins);
    assert Opened(v, id) == u.(entries := u.entries[id := e]).(modifying := Some(id));
  }

  lemma OpenedEntry(v: View, id: TxId)
    requires v.Cache? && v.modifying == None && Wf(v) && id !in v.entries
    ensures var e := Opened(v, id).entries[id];
            && e.isDirty && EntryOk(Fetched(v.base, id), id, e)
            && Get(Shown(v), id) == if e.coins.IsPruned() then None else Some(e.coins)
  {
    FetchedKeeps(v.base, id);
    ShownIsLookup(v.base, id);
    ShownAt(v, id);
    if Lookup(v.base, id).Some? { LookupClean(v.base, id); }
  }

  /** Closing a modifier makes the record what it was changed to and changes nothing else. */
  lemma ClosedShows(v: View, id: TxId, c: Coins)
    requires v.Cache? && v.modifying == Some(id) && Wf(v)
    ensures Wf(Closed(v, id, c)) && Shown(Closed(v, id, c)) == Put(Shown(v), id, Cleaned(c))
    ensures Closed(v, id, c).base == v.base
  {
    var e := v.entries[id].(coins := Cleaned(c));
    assert EntryOk(v.base, id, v.entries[id]);
    CleaningKeepsPruned(c);
    if e.isFresh && e.coins.IsPruned() {
      EraseFresh(v, id);
    } else {
      PutWf(v, id, e, None);
      ShownPut(v, id, e);
    }
  }

  lemma EraseFresh(v: View, id: TxId)
    requires v.Cache? && Wf(v) && v.modifying == Some(id) && v.entries[id].isFresh
    ensures var u := v.(entries := v.entries - {id}, modifying := None); Wf(u) && Shown(u) == Shown(v) - {id}
  {
    var u := v.(entries := v.entries - {id}, modifying := None);
    assert EntryOk(v.base, id, v.entries[id]);
    forall i | i in u.entries ensures EntryOk(u.base, i, u.entries[i]) {
      assert EntryOk(v.base, i, v.entries[i]);
    }
    forall i ensures Get(Shown(u), i) == Get(Shown(v) - {id}, i) {
      ShownAt(u, i);
      ShownAt(v, i);
    }
    SameMap(Shown(u), Shown(v) - {id});
  }

  /** What is seen after a modifier has been closed: the record is shown if and only if some output of it is
      unspent, with the same unspent outputs at the same positions, and every other record is as it was. */
  lemma ClosedIsSeen(v: View, id: TxId, c: Coins)
    requires v.Cache? && v.modifying == Some(id) && Wf(v)
    ensures var u := Closed(v, id, c);
            && u.modifying == None
            && (id in Shown(u) <==> exists n :: 0 <= n < |c.vout| && c.vout[n].nValue != -1)
            && (id in Shown(u) ==>
               Shown(u)[id] == c.(vout := Shown(u)[id].vout) && SameUnspent(Shown(u)[id].vout, c.vout)
                                   && IsClean(Shown(u)[id]))
            && (forall i :: i != id ==> Get(Shown(u), i) == Get(Shown(v), i))
            && (forall i :: i != id ==> Get(u.entries, i) == Get(v.entries, i))
            && (id in u.entries ==> u.entries[id].isDirty && u.entries[id].isFresh == v.entries[id].isFresh)
  {
    ClosedShows(v, id, c);
    CleaningKeepsPruned(c);
    if c.IsPruned() {
    } else {
      var n :| 0 <= n < |c.vout| && !c.vout[n].IsNull();
      CleanedOutputs(c.vout);
    }
  }

  // ---------------------------------------------------------------- flushing

  /** The assertion in `BatchWrite`: a dirty record that the parent cache lacks is marked fresh. */
  lemma FreshWhenAbsent(base: View, id: TxId, e: Entry)
    requires base.Cache? && EntryOk(base, id, e) && id !in base.entries
    ensures e.isFresh
  {
  }

  /** Merging a child's entry makes the parent show what the child showed, and keeps the flags right. */
  lemma MergedOk(base: View, id: TxId, theirs: Entry)
    requires base.Cache? && Wf(base) && EntryOk(base, id, theirs)
    ensures var m := Merged(Get(base.entries, id), theirs);
            && (m.Some? ==> EntryOk(base.base, id, m.value))
            && (theirs.coins.IsPruned() ==>
                  if m.Some? then m.value.coins.IsPruned() else id !in Shown(base.base))
            && (!theirs.coins.IsPruned() ==>
                  if m.Some? then m.value.coins == theirs.coins
                  else id in Shown(base.base)
                       && Shown(base.base)[id] == theirs.coins)
  {
    if id in base.entries { assert EntryOk(base.base, id, base.entries[id]); }
  }

  lemma MergedAllWf(base: View, theirs: map<TxId, Entry>)
    requires base.Cache? && Wf(base) && base.modifying == None
    requires forall id :: id in theirs ==> EntryOk(base, id, theirs[id])
    ensures Wf(BatchWritten(base, theirs))
  {
    var u := BatchWritten(base, theirs);
    forall id | id in u.entries ensures EntryOk(u.base, id, u.entries[id]) {
      if id in theirs { MergedOk(base, id, theirs[id]); } else { assert EntryOk(base.base, id, base.entries[id]); }
    }
  }

  lemma MergedAllShows(v: View)
    requires v.Cache? && Wf(v) && v.base.Cache?
    ensures Shown(BatchWritten(v.base, v.entries)) == Shown(v)
  {
    var u := BatchWritten(v.base, v.entries);
    forall id ensures Get(Shown(u), id) == Get(Shown(v), id) {
      ShownAt(u, id);
      ShownAt(v, id);
      ShownAt(v.base, id);
      if id in v.entries {
        assert EntryOk(v.base, id, v.entries[id]);
        MergedOk(v.base, id, v.entries[id]);
      }
    }
    SameMap(Shown(u), Shown(v));
  }

  lemma StoredShows(v: View)
    requires v.Cache? && Wf(v) && v.base.Db?
    ensures Wf(BatchWritten(v.base, v.entries)) && Shown(BatchWritten(v.base, v.entries)) == Shown(v)
  {
    var u := BatchWritten(v.base, v.entries);
    forall id | id in u.db ensures IsClean(u.db[id]) && !u.db[id].IsPruned() {
      if id in v.entries { assert EntryOk(v.base, id, v.entries[id]); }
    }
    forall id ensures Get(Shown(u), id) == Get(Shown(v), id) {
      ShownAt(v, id);
      if id in v.entries { assert EntryOk(v.base, id, v.entries[id]); }
    }
    SameMap(Shown(u), Shown(v));
  }

  /** Flushing makes the view below show what the cache showed; the emptied cache still shows it. */
  lemma FlushedShows(v: View)
    requires v.Cache? && Wf(v) && v.modifying == None && (v.base.Cache? ==> v.base.modifying == None)
    ensures Wf(Flushed(v)) && Shown(Flushed(v).base) == Shown(v) && Shown(Flushed(v)) == Shown(v)
    ensures v.base.Cache? ==> Flushed(v).base.base == v.base.base
  {
    if v.base.Cache? {
      MergedAllWf(v.base, v.entries);
      MergedAllShows(v);
    } else {
      StoredShows(v);
    }
    EmptyShows(BatchWritten(v.base, v.entries), None);
  }

  /** What a flush does to every entry.  One that is not dirty leaves the view below alone.  A dirty one is
      written to a database, or erased there if nothing is unspent; a cache takes it over as dirty, and as
      fresh if it lacked the record or had it as fresh, in which case a record without unspent outputs
      vanishes. */
  lemma FlushedEntries(v: View, id: TxId)
    requires v.Cache?
    ensures Flushed(v).entries == map[] && Flushed(v).modifying == v.modifying
    ensures id !in v.entries || !v.entries[id].isDirty ==>
              if v.base.Db? then Get(Flushed(v).base.db, id) == Get(v.base.db, id)
              else Get(Flushed(v).base.entries, id) == Get(v.base.entries, id)
    ensures id in v.entries && v.entries[id].isDirty && v.base.Db? ==>
              var c := v.entries[id].coins;
              Get(Flushed(v).base.db, id) == if c.IsPruned() then None else Some(c)
    ensures id in v.entries && v.entries[id].isDirty && v.base.Cache? ==>
              var c, unknown := v.entries[id].coins, id in v.base.entries ==> v.base.entries[id].isFresh;
              Get(Flushed(v).base.entries, id) ==
                if unknown && c.IsPruned() then None else Some(Entry(c, true, unknown))
  {
  }

  lemma EmptyShows(base: View, m: Option<TxId>)
    ensures Shown(Cache(base, map[], m)) == Shown(base)
  {
  }

  // ---------------------------------------------------------------- runs over a stack

  /** An operation on one cache of the stack.  `Close` carries what the caller made of the record. */
  datatype Op = Read(id: TxId) | Open(id: TxId) | Close(id: TxId, c: Coins) | Flush

  /** Operations on the cache `k` levels below the top.  A cache is modified or flushed only while
      the caches above it hold nothing. */
  ghost predicate Allowed(v: View, k: nat, op: Op) {
    && v.Cache?
    && if k > 0 then Allowed(v.base, k - 1, op) && (op.Read? || (v.entries == map[] && v.modifying == None))
       else match op
            case Read(_) => true
            case Open(_) => v.modifying == None
            case Close(id, _) => v.modifying == Some(id) && id in v.entries
            case Flush => v.modifying == None && (v.base.Cache? ==> v.base.modifying == None)
  }

  function Apply(v: View, k: nat, op: Op): View
    requires Allowed(v, k, op)
  {
    if k > 0 then v.(base := Apply(v.base, k - 1, op))
    else match op
         case Read(id) => Fetched(v, id)
         case Open(id) => Opened(v, id)
         case Close(id, c) => Closed(v, id, c)
         case Flush => Flushed(v)
  }

  /** The maps that the views of the stack show, from the top down to the database. */
  function Maps(v: View): (m: seq<map<TxId, Coins>>)
    ensures |m| > 0 && m[0] == Shown(v)
  {
    match v
    case Db(_) => [Shown(v)]
    case Cache(base, _, _) => [Shown(v)] + Maps(base)
  }

  /** The reference: one flat map per level; reading changes none, modifying changes the map of the
      level and the ones above, flushing copies a map one level down. */
  function Flat(m: seq<map<TxId, Coins>>, k: nat, op: Op): seq<map<TxId, Coins>>
    requires k + 1 < |m|
  {
    match op
    case Read(_) => m
    case Open(_) => m
    case Close(id, c) => seq(|m|, j requires 0 <= j < |m| => if j <= k then Put(m[k], id, Cleaned(c)) else m[j])
    case Flush => m[k + 1 := m[k]]
  }

  lemma {:induction false} AllowedDepth(v: View, k: nat, op: Op)
    requires Allowed(v, k, op)
    ensures k + 1 < |Maps(v)|
  {
    if k > 0 { AllowedDepth(v.base, k - 1, op); }
  }

  lemma {:induction false} SameMapsGrown(v: View, id: TxId)
    requires Wf(v)
    ensures Maps(Fetched(v, id)) == Maps(v)
  {
    FetchedKeeps(v, id);
    if v.Cache? && id !in v.entries { SameMapsGrown(v.base, id); }
  }

  lemma StepAtTop(v: View, op: Op)
    requires Wf(v) && Allowed(v, 0, op) && 1 < |Maps(v)|
    ensures Wf(Apply(v, 0, op)) && Maps(Apply(v, 0, op)) == Flat(Maps(v), 0, op)
    ensures op.Read? ==> Grown(v, Apply(v, 0, op))
  {
    match op
    case Read(id) =>
      FetchedKeeps(v, id);
      SameMapsGrown(v, id);
    case Open(id) =>
      OpenedKeeps(v, id);
      if id !in v.entries { SameMapsGrown(v.base, id); }
    case Close(id, c) =>
      ClosedShows(v, id, c);
      ClosedMaps(v, id, c);
    case Flush =>
      FlushedShows(v);
      FlushedMaps(v);
  }

  lemma ClosedMaps(v: View, id: TxId, c: Coins)
    requires v.Cache? && id in v.entries && 1 < |Maps(v)|
    requires Shown(Closed(v, id, c)) == Put(Shown(v), id, Cleaned(c)) && Closed(v, id, c).base == v.base
    ensures Maps(Closed(v, id, c)) == Flat(Maps(v), 0, Close(id, c))
  {
    var below, top := Maps(v.base), Put(Shown(v), id, Cleaned(c));
    assert Maps(v) == [Shown(v)] + below && Maps(Closed(v, id, c)) == [top] + below;
    FlatAtTop([Shown(v)] + below, id, c);
  }

  lemma FlatAtTop(m: seq<map<TxId, Coins>>, id: TxId, c: Coins)
    requires |m| > 1
    ensures Flat(m, 0, Close(id, c)) == [Put(m[0], id, Cleaned(c))] + m[1..]
  {
  }

  lemma FlushedMaps(v: View)
    requires v.Cache? && 1 < |Maps(v)|
    requires Shown(Flushed(v).base) == Shown(v) && Shown(Flushed(v)) == Shown(v)
    requires v.base.Cache? ==> Flushed(v).base.base == v.base.base
    ensures Maps(Flushed(v)) == Flat(Maps(v), 0, Flush)
  {
    var f, top := Flushed(v), Shown(v);
    var rest := if v.base.Cache? then Maps(v.base.base) else [];
    assert Maps(v.base) == [Shown(v.base)] + rest && Maps(f.base) == [top] + rest;
    FlushAtTop(top, Shown(v.base), rest);
    assert Maps(v) == [top] + ([Shown(v.base)] + rest) && Maps(f) == [top] + ([top] + rest);
  }

  lemma FlushAtTop(top: map<TxId, Coins>, below: map<TxId, Coins>, rest: seq<map<TxId, Coins>>)
    ensures Flat([top] + ([below] + rest), 0, Flush) == [top] + ([top] + rest)
  {
    var m := [top] + ([below] + rest);
    assert m[1 := top] == [top] + ([top] + rest);
  }

  /** The reference, one level further down. */
  lemma FlatBelow(top: map<TxId, Coins>, below: seq<map<TxId, Coins>>, k: nat, op: Op)
    requires 0 < k < |below|
    ensures op.Close? ==>
              [Flat(below, k - 1, op)[0]] + Flat(below, k - 1, op) == Flat([top] + below, k, op)
    ensures !op.Close? ==> [top] + Flat(below, k - 1, op) == Flat([top] + below, k, op)
    ensures op.Flush? ==> Flat(below, k - 1, op)[0] == below[0]
  {
    var m := [top] + below;
    if op.Close? {
      assert m[k] == below[k - 1];
      assert [Flat(below, k - 1, op)[0]] + Flat(below, k - 1, op) == Flat(m, k, op);
    }
  }

  /** Every operation of the discipline, at any level of a stack of any depth, does to what the
      views show exactly what the reference does, and keeps the flags right. */
  lemma {:induction false} StepRefinesFlat(v: View, k: nat, op: Op)
    requires Wf(v) && Allowed(v, k, op)
    ensures k + 1 < |Maps(v)|
    ensures Wf(Apply(v, k, op)) && Maps(Apply(v, k, op)) == Flat(Maps(v), k, op)
    ensures op.Read? ==> Grown(v, Apply(v, k, op))
  {
    AllowedDepth(v, k, op);
    if k == 0 {
      StepAtTop(v, op);
    } else {
      StepRefinesFlat(v.base, k - 1, op);
      var base' := Apply(v.base, k - 1, op);
      if op.Read? {
        StaysOnTop(v, base');
      } else {
        EmptyShows(v.base, None);
        EmptyShows(base', None);
      }
      FlatBelow(Shown(v), Maps(v.base), k, op);
    }
  }

  datatype Action = On(level: nat, op: Op) | Push | Pop

  /** A new cache on top, or the top cache thrown away without flushing. */
  ghost predicate Enabled(v: View, a: Action) {
    match a
    case On(k, op) => Allowed(v, k, op)
    case Push => v.Cache? ==> v.modifying == None
    case Pop => v.Cache? && v.modifying == None
  }

  /** What can be done to the top of a stack: a cache without an open modifier can be read, modified, covered by
      another and thrown away, and flushed unless the cache below is being modified. */
  lemma WhatIsEnabled(v: View, id: TxId, c: Coins, entries: map<TxId, Entry>, m: Option<TxId>, k: nat, op: Op)
    ensures Enabled(v, On(0, Read(id))) <==> v.Cache?
    ensures Enabled(v, On(0, Open(id))) <==> v.Cache? && v.modifying == None
    ensures Enabled(v, On(0, Close(id, c))) <==> v.Cache? && v.modifying == Some(id) && id in v.entries
    ensures Enabled(v, On(0, Flush)) <==> v.Cache? && v.modifying == None && (v.base.Db? || v.base.modifying == None)
    ensures Enabled(v, Push) <==> v.Db? || v.modifying == None
    ensures Enabled(v, Pop) <==> v.Cache? && v.modifying == None
    ensures Enabled(Cache(v, entries, m), On(k + 1, op)) <==>
            Enabled(v, On(k, op)) && (op.Read? || (entries == map[] && m == None))
  {
  }

  function Act(v: View, a: Action): View
    requires Enabled(v, a)
  {
    match a
    case On(k, op) => Apply(v, k, op)
    case Push => Cache(v, map[], None)
    case Pop => v.base
  }

  function FlatAct(m: seq<map<TxId, Coins>>, a: Action): seq<map<TxId, Coins>>
    requires |m| > 0 && (a.Pop? ==> |m| > 1) && (a.On? ==> a.level + 1 < |m|)
  {
    match a
    case On(k, op) => Flat(m, k, op)
    case Push => [m[0]] + m
    case Pop => m[1..]
  }

  ghost predicate IsRun(views: seq<View>, actions: seq<Action>) {
    && |views| == |actions| + 1 && Wf(views[0])
    && forall i :: 0 <= i < |actions| ==> Enabled(views[i], actions[i]) && views[i + 1] == Act(views[i], actions[i])
  }

  lemma ActRefinesFlat(v: View, a: Action)
    requires Wf(v) && Enabled(v, a)
    ensures |Maps(v)| > 0 && (a.Pop? ==> |Maps(v)| > 1) && (a.On? ==> a.level + 1 < |Maps(v)|)
    ensures Wf(Act(v, a)) && Maps(Act(v, a)) == FlatAct(Maps(v), a)
  {
    match a
    case On(k, op) => StepRefinesFlat(v, k, op);
    case Push => EmptyShows(v, None);
    case Pop => assert Maps(v) == [Shown(v)] + Maps(v.base);
  }

  /** In every run, all flags stay right and every view shows its flat map; so reading through the
      top of the stack, after any reads, modifications, flushes and stackings, gives the flat map. */
  lemma {:induction false} RunRefinesFlat(views: seq<View>, actions: seq<Action>, flats: seq<seq<map<TxId, Coins>>>,
    n: nat)
    requires IsRun(views, actions) && |flats| == |views| && n < |views| && flats[0] == Maps(views[0])
    requires forall i :: 0 <= i < n ==>
               && |flats[i]| > 0 && (actions[i].Pop? ==> |flats[i]| > 1)
                  && (actions[i].On? ==> actions[i].level + 1 < |flats[i]|)
               && flats[i + 1] == FlatAct(flats[i], actions[i])
    ensures Wf(views[n]) && Maps(views[n]) == flats[n]
  {
    if n > 0 {
      RunRefinesFlat(views, actions, flats, n - 1);
      ActRefinesFlat(views[n - 1], actions[n - 1]);
    }
  }

  /** What the readers of a well-formed stack get is its top flat map. */
  lemma ReadersSeeTheMap(v: View, id: TxId)
    requires Wf(v)
    ensures HaveCoins(v, id) <==> id in Maps(v)[0]
    ensures id in Maps(v)[0] ==> Lookup(v, id) == Some(Maps(v)[0][id])
  {
    HaveCoinsIsExact(v, id);
    ShownIsLookup(v, id);
  }
}
