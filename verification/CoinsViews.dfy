/** The caches and the database as objects that are updated in place.  Each method does to the
    stack of objects what the function of the same purpose in `CoinsCache` does to its value. */
module CoinsViews {
  import opened Options
  import opened Coins
  import opened CoinsCache

  /** `CCoinsViewDB`. */
  class CoinsViewDB {
    var db: map<TxId, Coins>

    constructor ()
      ensures db == map[]
    {
      db := map[];
    }

    method BatchWrite(mapCoins: map<TxId, Entry>)
      modifies this
      ensures db == Stored(old(db), mapCoins)
    {
      var rest := mapCoins;
      while rest != map[]
        invariant forall id :: id in rest ==> id in mapCoins && rest[id] == mapCoins[id]
        invariant forall id :: Get(db, id) == if id in rest then Get(old(db), id)
                  else Get(Stored(old(db), mapCoins), id)
        decreases rest.Keys
      {
        var id :| id in rest;
        if rest[id].isDirty {
          db := if rest[id].coins.IsPruned() then db - {id} else db[id := rest[id].coins];
        }
        rest := rest - {id};
      }
      SameMap(db, Stored(old(db), mapCoins));
    }
  }

  /** `CCoinsViewCache`.  `base` is the cache below, or null for a cache directly on the database;
      `modifying` is the entry of an open modifier (`hasModifier` is that there is one). */
  class CoinsViewCache {
    const base: CoinsViewCache?
    const store: CoinsViewDB
    var cacheCoins: map<TxId, Entry>
    var modifying: Option<TxId>
    ghost const Repr: set<object>

    ghost predicate Valid()
      reads this, Repr
      ensures Valid() ==> this in Repr
      decreases Repr
    {
      && this in Repr
      && (base == null ==> store in Repr)
      && (base != null ==> base in Repr && base.Repr <= Repr - {this} && base.store == store && base.Valid())
    }

    /** The stack of views from this cache down. */
    ghost function Abs(): View
      requires Valid()
      reads this, Repr
      decreases Repr
    {
      Cache(if base == null then Db(store.db) else base.Abs(), cacheCoins, modifying)
    }

    constructor OnStore(db: CoinsViewDB)
      ensures Valid() && Abs() == Cache(Db(db.db), map[], None)
    {
      base, store, cacheCoins, modifying := null, db, map[], None;
      Repr := {this, db};
    }

    constructor OnCache(below: CoinsViewCache)
      requires below.Valid()
      ensures Valid() && Abs() == Cache(below.Abs(), map[], None)
    {
      base, store, cacheCoins, modifying := below, below.store, map[], None;
      Repr := {this} + below.Repr;
    }

    /** `FetchCoins` and `GetCoins`: a record that the cache lacks is pulled in from below. */
    method GetCoins(id: TxId) returns (r: Option<Coins>)
      requires Valid()
      modifies Repr
      ensures Valid() && Abs() == Fetched(old(Abs()), id) && r == Lookup(old(Abs()), id)
      decreases Repr
    {
      if id in cacheCoins {
        return Some(cacheCoins[id].coins);
      }
      if base == null {
        r := Get(store.db, id);
      } else {
        r := base.GetCoins(id);
      }
      if r.Some? {
        cacheCoins := cacheCoins[id := Entry(r.value, false, r.value.IsPruned())];
      }
    }

    method HaveCoins(id: TxId) returns (r: bool)
      requires Valid()
      modifies Repr
      ensures Valid() && Abs() == Fetched(old(Abs()), id)
      ensures r == CoinsCache.HaveCoins(old(Abs()), id)
    {
      var c := GetCoins(id);
      r := c.Some? && c.value.vout != [];
    }

    /** The modifier that is handed out refers to the entry whose coins are returned. */
    method ModifyCoins(id: TxId) returns (coins: Coins)
      requires Valid() && modifying == None
      modifies Repr
      ensures Valid() && Abs() == Opened(old(Abs()), id)
      ensures coins == Abs().entries[id].coins
    {
      if id !in cacheCoins {
        var r;
        if base == null {
          r := Get(store.db, id);
        } else {
          r := base.GetCoins(id);
        }
        match r {
          case None => cacheCoins := cacheCoins[id := Entry(EMPTY, false, true)];
          case Some(c) => cacheCoins := cacheCoins[id := Entry(c, false, c.IsPruned())];
        }
      }
      cacheCoins := cacheCoins[id := cacheCoins[id].(isDirty := true)];
      modifying := Some(id);
      coins := cacheCoins[id].coins;
    }

    /** The end of a modifier through which the record became `c`. */
    method EndModify(id: TxId, c: Coins)
      requires Valid() && modifying == Some(id) && id in cacheCoins
      modifies this
      ensures Valid() && Abs() == Closed(old(Abs()), id, c)
    {
      modifying := None;
      var coins := Cleanup(c);
      cacheCoins := cacheCoins[id := cacheCoins[id].(coins := coins)];
      if cacheCoins[id].isFresh && cacheCoins[id].coins.IsPruned() {
        cacheCoins := cacheCoins - {id};
      }
      assert Abs().entries == Closed(old(Abs()), id, c).entries;
    }

    /** One entry of the child. */
    method WriteEntry(id: TxId, e: Entry)
      requires Valid() && (id !in cacheCoins && e.isDirty && !e.coins.IsPruned() ==> e.isFresh)
      modifies this
      ensures modifying == old(modifying)
      ensures forall i :: i != id ==> Get(cacheCoins, i) == Get(old(cacheCoins), i)
      ensures Get(cacheCoins, id) == Merged(Get(old(cacheCoins), id), e)
    {
      if e.isDirty {
        if id !in cacheCoins {
          if !e.coins.IsPruned() {
            assert e.isFresh;
            cacheCoins := cacheCoins[id := Entry(e.coins, true, true)];
          }
        } else if cacheCoins[id].isFresh && e.coins.IsPruned() {
          cacheCoins := cacheCoins - {id};
        } else {
          cacheCoins := cacheCoins[id := cacheCoins[id].(coins := e.coins, isDirty := true)];
        }
      }
    }

    method BatchWrite(mapCoins: map<TxId, Entry>)
      requires Valid() && modifying == None
      requires forall id :: id in mapCoins ==> EntryOk(Abs(), id, mapCoins[id])
      modifies this
      ensures Valid() && Abs() == BatchWritten(old(Abs()), mapCoins)
    {
      ghost var before := cacheCoins;
      var rest := mapCoins;
      while rest != map[]
        invariant Valid() && modifying == None
        invariant forall id :: id in rest ==> id in mapCoins && rest[id] == mapCoins[id]
        invariant forall id :: Get(cacheCoins, id) == if id in rest then Get(before, id)
                  else Get(MergedAll(before, mapCoins), id)
        decreases rest.Keys
      {
        var id :| id in rest;
        assert Get(cacheCoins, id) == Get(before, id);
        WriteEntry(id, rest[id]);
        rest := rest - {id};
      }
      SameMap(cacheCoins, MergedAll(before, mapCoins));
    }

    method Flush()
      requires Valid() && Wf(Abs()) && modifying == None && (base != null ==> base.modifying == None)
      modifies Repr
      ensures Valid() && Abs() == Flushed(old(Abs()))
    {
      if base == null {
        store.BatchWrite(cacheCoins);
      } else {
        base.BatchWrite(cacheCoins);
      }
      cacheCoins := map[];
    }
  }
}
