/** The store and its sessions on the heap (pkg/ipam-node/store/store.go).

    Maps are shared by reference, as in the original: a session mutates the entry maps of its own deep copy in
    place, and a commit publishes the copy by making the store share its maps. Each operation is proved to do
    to the session's data what StoreModel says, and to leave the committed data alone. Using a closed session
    panics in the original; here every operation demands an open one. */
module Store {
  import opened Addresses
  import opened StoreModel

  class EntryMap {
    var m: map<string, Reservation>

    constructor (m: map<string, Reservation>)
      ensures this.m == m
    {
      this.m := m;
    }
  }

  /** A pool record is a value that holds a reference to its entry map. */
  datatype PoolRecord = PoolRecord(
    name: string,
    entries: EntryMap,
    lastPoolConfig: string,
    lastReservedIP: Option<Address>)

  class PoolMap {
    var m: map<string, PoolRecord>

    constructor ()
      ensures m == map[]
    {
      m := map[];
    }
  }

  class RootObject {
    var pools: PoolMap

    constructor (pools: PoolMap)
      ensures this.pools == pools
    {
      this.pools := pools;
    }
  }

  // ----- what a root stands for -----

  type Records = map<string, PoolRecord>

  ghost predicate IsValue(rec: PoolRecord, p: PoolData)
    reads rec.entries
  {
    p == PoolData(rec.name, rec.entries.m, rec.lastPoolConfig, rec.lastReservedIP)
  }

  /** Every entry map is one of `repr`, and no two pools share one. */
  ghost predicate Owned(m: Records, repr: set<object>) {
    && (forall k :: k in m ==> m[k].entries in repr)
    && (forall k, l {:trigger Unshared(m, k, l)} :: k in m && l in m && k != l ==> Unshared(m, k, l))
  }

  ghost predicate Unshared(m: Records, k: string, l: string) {
    k in m && l in m ==> m[k].entries != m[l].entries
  }

  /** The records, read through their entry maps, are the given data. */
  ghost predicate Represents(m: Records, repr: set<object>, data: Root)
    requires Owned(m, repr)
    reads repr
  {
    data.Keys == m.Keys && forall k {:trigger IsValue(m[k], data[k])} :: k in m ==> IsValue(m[k], data[k])
  }

  ghost predicate Holds(r: RootObject, repr: set<object>, data: Root)
    reads r, r.pools, repr
  {
    r in repr && r.pools in repr && Owned(r.pools.m, repr) && Represents(r.pools.m, repr, data)
  }

  lemma OwnedMore(m: Records, repr: set<object>, more: set<object>)
    requires Owned(m, repr) && repr <= more
    ensures Owned(m, more)
  {
  }

  lemma OwnedMinus(m: Records, repr: set<object>, k: string)
    requires Owned(m, repr)
    ensures Owned(m - {k}, repr)
  {
    var n := m - {k};
    forall i, j | i in n && j in n && i != j ensures Unshared(n, i, j) {
      var _ := Unshared(m, i, j);
    }
  }

  lemma OwnedUpdate(m: Records, repr: set<object>, k: string, rec: PoolRecord)
    requires Owned(m, repr)
    requires k in m ==> rec.entries == m[k].entries
    requires k !in m ==> rec.entries !in repr
    ensures Owned(m[k := rec], repr + {rec.entries})
  {
    var n := m[k := rec];
    forall i, j | i in n && j in n && i != j ensures Unshared(n, i, j) {
      var _ := Unshared(m, i, j);
    }
  }

  /** Putting a record with its value keeps records and data in step. */
  lemma RepresentsUpdate(m: Records, repr: set<object>, data: Root, k: string, rec: PoolRecord, value: PoolData)
    requires Owned(m, repr) && data.Keys == m.Keys && IsValue(rec, value)
    requires forall l :: l in m && l != k ==> IsValue(m[l], data[l])
    requires k in m ==> rec.entries == m[k].entries
    requires k !in m ==> rec.entries !in repr
    ensures Owned(m[k := rec], repr + {rec.entries})
    ensures Represents(m[k := rec], repr + {rec.entries}, data[k := value])
  {
    OwnedUpdate(m, repr, k, rec);
  }

  // ----- deep copy -----

  /** A copy that shares no map with the original. */
  method DeepCopy(r: RootObject, ghost repr: set<object>, ghost data: Root)
    returns (c: RootObject, ghost own: set<object>)
    requires Holds(r, repr, data)
    ensures fresh(own) && Holds(c, own, data)
  {
    var pm := new PoolMap();
    own := {pm};
    var todo := r.pools.m.Keys;
    while todo != {}
      invariant fresh(own) && pm in own && Owned(pm.m, own)
      invariant todo <= r.pools.m.Keys
      invariant pm.m.Keys == r.pools.m.Keys - todo
      invariant forall k :: k in pm.m ==> IsValue(pm.m[k], data[k])
      decreases todo
    {
      var k :| k in todo;
      var rec := r.pools.m[k];
      assert IsValue(rec, data[k]);
      var copy := new EntryMap(rec.entries.m);
      OwnedUpdate(pm.m, own, k, rec.(entries := copy));
      own := own + {copy};
      pm.m := pm.m[k := rec.(entries := copy)];
      todo := todo - {k};
    }
    c := new RootObject(pm);
    own := own + {c};
  }

  /** The contents of a store file as objects. */
  method Read(file: Root) returns (c: RootObject, ghost own: set<object>)
    ensures fresh(own) && Holds(c, own, file)
  {
    var pm := new PoolMap();
    own := {pm};
    var todo := file.Keys;
    while todo != {}
      invariant fresh(own) && pm in own && Owned(pm.m, own)
      invariant todo <= file.Keys
      invariant pm.m.Keys == file.Keys - todo
      invariant forall k :: k in pm.m ==> IsValue(pm.m[k], file[k])
      decreases todo
    {
      var k :| k in todo;
      var entries := new EntryMap(file[k].entries);
      var rec := PoolRecord(file[k].name, entries, file[k].lastPoolConfig, file[k].lastReservedIP);
      OwnedUpdate(pm.m, own, k, rec);
      own := own + {entries};
      pm.m := pm.m[k := rec];
      todo := todo - {k};
    }
    c := new RootObject(pm);
    own := own + {c};
  }

  // ----- the store -----

  class FileStore {
    var persisted: RootObject
    /** What the store file holds: the last successful write. */
    var disk: Root
    var locked: bool
    ghost var committed: Root
    ghost var repr: set<object>

    ghost predicate Valid()
      reads this, persisted, persisted.pools, repr
    {
      this !in repr && Holds(persisted, repr, committed) && disk == committed
    }

    /** A new daemon without a store file. */
    constructor ()
      ensures Valid() && !locked && committed == map[] && disk == map[] && fresh(repr)
    {
      var pm := new PoolMap();
      var root := new RootObject(pm);
      persisted := root;
      disk := map[];
      locked := false;
      committed := map[];
      repr := {root, pm};
    }

    /** A daemon that starts with a store file: what is committed is the last successful write. */
    constructor Load(file: Root)
      ensures Valid() && !locked && committed == file && fresh(repr)
    {
      ghost var own;
      var root;
      root, own := Read(file);
      persisted := root;
      disk := file;
      locked := false;
      committed := file;
      repr := own;
    }

    /** Opens a session on a deep copy. In the original the call waits for the lock. */
    method Open() returns (s: Session)
      requires Valid() && !locked
      modifies this`locked
      ensures Valid() && locked
      ensures fresh(s) && fresh(s.repr) && s.store == this
      ensures s.Valid() && !s.isClosed && !s.isModified
      ensures s.data == committed
    {
      locked := true;
      ghost var own;
      var copy;
      copy, own := DeepCopy(persisted, repr, committed);
      s := new Session(this, copy, own);
    }
  }

  class Session {
    const store: FileStore
    const tmp: RootObject
    var isModified: bool
    var isClosed: bool
    ghost var data: Root
    ghost var repr: set<object>

    /** While a session is open, nothing it may write belongs to the committed data, and until it is marked as
        modified it holds what is committed. */
    ghost predicate Valid()
      reads this, repr, tmp, tmp.pools, store, store.persisted, store.persisted.pools, store.repr
    {
      && store.Valid()
      && this !in repr && store !in repr && this !in store.repr
      && Holds(tmp, repr, data)
      && (!isClosed ==> store.locked && repr !! store.repr)
      && (!isClosed && !isModified ==> data == store.committed)
    }

    constructor (store: FileStore, tmp: RootObject, ghost own: set<object>)
      requires store.Valid() && store.locked && store !in own
      requires Holds(tmp, own, store.committed) && own !! store.repr
      ensures Valid() && this.store == store && this.tmp == tmp && !isModified && !isClosed
      ensures data == store.committed && repr == own
    {
      this.store := store;
      this.tmp := tmp;
      isModified := false;
      isClosed := false;
      data := store.committed;
      repr := own;
    }

    /** The record of a pool: a copy of the struct that shares the entry map, or a new empty record. */
    method GetPoolData(poolKey: string) returns (rec: PoolRecord)
      requires Valid()
      ensures poolKey in tmp.pools.m ==> rec == tmp.pools.m[poolKey]
      ensures poolKey !in tmp.pools.m ==> fresh(rec.entries)
      ensures IsValue(rec, PoolOf(data, poolKey))
    {
      if poolKey in tmp.pools.m {
        rec := tmp.pools.m[poolKey];
        assert IsValue(rec, data[poolKey]);
      } else {
        var entries := new EntryMap(map[]);
        rec := PoolRecord(poolKey, entries, "", None);
      }
    }

    /** Overwrites the entry map of a record in place and stores the record. */
    method UpdatePoolData(poolKey: string, rec: PoolRecord, entries: map<string, Reservation>, cfg: string, last: Option<Address>)
      requires Valid() && !isClosed
      requires poolKey in tmp.pools.m ==> rec == tmp.pools.m[poolKey]
      requires poolKey !in tmp.pools.m ==> rec.entries !in repr && rec.entries !in store.repr
      modifies this, tmp.pools, rec.entries
      ensures Valid() && !isClosed && isModified
      ensures data == old(data)[poolKey := PoolData(rec.name, entries, cfg, last)]
      ensures repr == old(repr) + {rec.entries}
    {
      OverwriteEntries(poolKey, rec, entries);
      StoreRecord(poolKey, rec.(lastPoolConfig := cfg, lastReservedIP := last), PoolData(rec.name, entries, cfg, last));
    }

    /** Valid, but for the value of one pool. */
    ghost predicate ValidBut(poolKey: string)
      reads this, repr, tmp, tmp.pools, store, store.persisted, store.persisted.pools, store.repr
    {
      && store.Valid()
      && this !in repr && store !in repr && this !in store.repr
      && tmp in repr && tmp.pools in repr && Owned(tmp.pools.m, repr)
      && data.Keys == tmp.pools.m.Keys
      && (forall k :: k in tmp.pools.m && k != poolKey ==> IsValue(tmp.pools.m[k], data[k]))
      && !isClosed && store.locked && repr !! store.repr
    }

    /** Writing into one entry map leaves every other pool, and the committed data, as they were. */
    method OverwriteEntries(poolKey: string, rec: PoolRecord, entries: map<string, Reservation>)
      requires Valid() && !isClosed
      requires poolKey in tmp.pools.m ==> rec == tmp.pools.m[poolKey]
      requires poolKey !in tmp.pools.m ==> rec.entries !in repr && rec.entries !in store.repr
      modifies rec.entries
      ensures rec.entries.m == entries
      ensures ValidBut(poolKey)
    {
      forall k | k in tmp.pools.m && k != poolKey
        ensures tmp.pools.m[k].entries != rec.entries && IsValue(tmp.pools.m[k], data[k])
      {
        assert poolKey in tmp.pools.m ==> Unshared(tmp.pools.m, k, poolKey);
      }
      assert rec.entries !in store.repr;
      rec.entries.m := entries;
    }

    method StoreRecord(poolKey: string, rec: PoolRecord, ghost value: PoolData)
      requires ValidBut(poolKey) && IsValue(rec, value)
      requires poolKey in tmp.pools.m ==> rec.entries == tmp.pools.m[poolKey].entries
      requires poolKey !in tmp.pools.m ==> rec.entries !in repr && rec.entries !in store.repr
      modifies this, tmp.pools
      ensures Valid() && !isClosed && isModified
      ensures data == old(data)[poolKey := value] && repr == old(repr) + {rec.entries}
    {
      PutRecord(poolKey, rec, value);
      Follow(data[poolKey := value], repr + {rec.entries});
    }

    /** Puts the record into the pool map. */
    method PutRecord(poolKey: string, rec: PoolRecord, ghost value: PoolData)
      requires ValidBut(poolKey) && IsValue(rec, value)
      requires poolKey in tmp.pools.m ==> rec.entries == tmp.pools.m[poolKey].entries
      requires poolKey !in tmp.pools.m ==> rec.entries !in repr && rec.entries !in store.repr
      modifies tmp.pools
      ensures Follows(data[poolKey := value], repr + {rec.entries})
    {
      ghost var m := tmp.pools.m;
      tmp.pools.m := tmp.pools.m[poolKey := rec];
      RepresentsUpdate(m, repr, data, poolKey, rec, value);
    }

    /** The maps of the session hold `d` in the objects `own`, and its view may follow. */
    ghost predicate Follows(d: Root, own: set<object>)
      reads this, own, tmp, tmp.pools, store, store.persisted, store.persisted.pools, store.repr
    {
      && store.Valid() && store.locked && !isClosed
      && this !in own && store !in own && this !in store.repr && own !! store.repr
      && Holds(tmp, own, d)
    }

    method Follow(ghost d: Root, ghost own: set<object>)
      requires Follows(d, own)
      modifies this`data, this`repr, this`isModified
      ensures Valid() && isModified && data == d && repr == own
    {
      data, repr, isModified := d, own, true;
    }

    method Reserve(poolKey: string, id: string, ifName: string, meta: Metadata, address: Address)
      returns (err: ReserveError)
      requires Valid() && !isClosed
      modifies this, repr
      ensures Valid() && !isClosed && (forall o :: o in repr ==> o in old(repr) || fresh(o))
      ensures err == ReserveVerdict(old(data), poolKey, id, ifName, address)
      ensures err != NoError ==> repr == old(repr)
      ensures data == if err == NoError then Reserved(old(data), poolKey, id, ifName, meta, address) else old(data)
      ensures isModified == (old(isModified) || err == NoError)
      ensures store.committed == old(store.committed)
    {
      var key := Key(id, ifName);
      var rec := GetPoolData(poolKey);
      if key in rec.entries.m {
        return ErrReservationAlreadyExist;
      }
      var used := AddressUsed(rec.entries.m, address);
      if used {
        return ErrIPAlreadyReserved;
      }
      UpdatePoolData(poolKey, rec, rec.entries.m[key := Reservation(id, ifName, address, meta, None)],
                     meta.poolConfigSnapshot, Some(address));
      return NoError;
    }

    method ReleaseReservationByID(poolKey: string, id: string, ifName: string, cooldown: int, now: int)
      returns (removed: bool)
      requires Valid() && !isClosed
      modifies this, repr
      ensures Valid() && !isClosed && (forall o :: o in repr ==> o in old(repr) || fresh(o))
      ensures removed <==> ReleaseVerdict(old(data), poolKey, id, ifName, cooldown, now) == Remove
      ensures data == Released(old(data), poolKey, id, ifName, cooldown, now)
      ensures isModified == (old(isModified) || ReleaseVerdict(old(data), poolKey, id, ifName, cooldown, now) != Nothing)
      ensures store.committed == old(store.committed)
    {
      var key := Key(id, ifName);
      var rec := GetPoolData(poolKey);
      if key !in rec.entries.m {
        return false;
      }
      var reservation := rec.entries.m[key];
      var expired := reservation.IsReleased() && now - reservation.releasedAt.value >= cooldown;
      if cooldown > 0 && reservation.IsReleased() && !expired {
        return false;
      }
      removed := cooldown <= 0 || expired;
      var entries := if removed then rec.entries.m - {key} else rec.entries.m[key := reservation.(releasedAt := Some(now))];
      UpdatePoolData(poolKey, rec, entries, rec.lastPoolConfig, rec.lastReservedIP);
    }

    method SetLastReservedIP(poolKey: string, ip: Option<Address>)
      requires Valid() && !isClosed
      modifies this, repr
      ensures Valid() && !isClosed && isModified && (forall o :: o in repr ==> o in old(repr) || fresh(o))
      ensures data == WithLast(old(data), poolKey, ip)
      ensures store.committed == old(store.committed)
    {
      var rec := GetPoolData(poolKey);
      UpdatePoolData(poolKey, rec, rec.entries.m, rec.lastPoolConfig, ip);
    }

    method GetLastReservedIP(poolKey: string) returns (ip: Option<Address>)
      requires Valid() && !isClosed
      ensures ip == PoolOf(data, poolKey).lastReservedIP
    {
      var rec := GetPoolData(poolKey);
      ip := rec.lastReservedIP;
    }

    method GetReservationByID(poolKey: string, id: string, ifName: string) returns (r: Option<Reservation>)
      requires Valid() && !isClosed
      ensures r == Lookup(data, poolKey, id, ifName)
      ensures var entries := PoolOf(data, poolKey).entries;
              && (r.Some? <==> Key(id, ifName) in entries && entries[Key(id, ifName)].releasedAt == None)
              && (r.Some? ==> r.value == entries[Key(id, ifName)])
    {
      var rec := GetPoolData(poolKey);
      var key := Key(id, ifName);
      if key !in rec.entries.m || rec.entries.m[key].IsReleased() {
        return None;
      }
      return Some(rec.entries.m[key]);
    }

    /** The entries of a pool, released ones included. The original returns their values in no particular order. */
    method ListReservations(poolKey: string) returns (m: map<string, Reservation>)
      requires Valid() && !isClosed
      ensures m == PoolOf(data, poolKey).entries
    {
      var rec := GetPoolData(poolKey);
      m := rec.entries.m;
    }

    method ListPools() returns (names: set<string>)
      requires Valid() && !isClosed
      ensures names == data.Keys
    {
      names := tmp.pools.m.Keys;
    }

    method RemovePool(poolKey: string)
      requires Valid() && !isClosed
      modifies this, repr
      ensures Valid() && !isClosed && isModified && repr == old(repr)
      ensures data == old(data) - {poolKey}
      ensures store.committed == old(store.committed)
    {
      OwnedMinus(tmp.pools.m, repr, poolKey);
      tmp.pools.m := tmp.pools.m - {poolKey};
      data := data - {poolKey};
      isModified := true;
    }

    /** Commit publishes the copy by sharing its maps, if there is anything to write and the write succeeds.
        Otherwise what is committed does not change. Either way the session is closed. */
    method Commit(writeOk: bool) returns (ok: bool)
      requires Valid() && !isClosed
      modifies this`isClosed, store, store.persisted
      ensures Valid() && isClosed && !store.locked
      ensures ok <==> !isModified || writeOk
      ensures isModified && writeOk ==> store.committed == data && store.disk == data
      ensures !(isModified && writeOk) ==> store.committed == old(store.committed) && store.disk == old(store.disk)
      ensures store.repr <= old(store.repr) + repr
    {
      if !isModified {
        store.locked, isClosed := false, true;
        return true;
      }
      if !writeOk {
        store.locked, isClosed := false, true;
        return false;
      }
      var file := Snapshot();
      Publish(file);
      return true;
    }

    method Publish(file: Root)
      requires Valid() && !isClosed && file == data
      modifies this`isClosed, store, store.persisted
      ensures Valid() && isClosed && !store.locked
      ensures store.committed == data && store.disk == data && store.repr == {store.persisted} + repr
      ensures store.persisted == old(store.persisted)
    {
      store.disk := file;
      store.persisted.pools := tmp.pools;
      store.committed := data;
      store.repr := {store.persisted} + repr;
      store.locked, isClosed := false, true;
      OwnedMore(tmp.pools.m, repr, store.repr);
    }

    /** What is written to the file: a value, sharing nothing. */
    method Snapshot() returns (r: Root)
      requires Valid()
      ensures r == data
    {
      r := map[];
      var todo := tmp.pools.m.Keys;
      while todo != {}
        invariant todo <= data.Keys
        invariant r.Keys == data.Keys - todo
        invariant forall k :: k in r ==> r[k] == data[k]
        decreases todo
      {
        var k :| k in todo;
        var rec := tmp.pools.m[k];
        assert IsValue(rec, data[k]);
        r := r[k := PoolData(rec.name, rec.entries.m, rec.lastPoolConfig, rec.lastReservedIP)];
        todo := todo - {k};
      }
    }

    method Cancel()
      requires Valid() && !isClosed
      modifies this`isClosed, store`locked
      ensures Valid() && isClosed && !store.locked
    {
      store.locked, isClosed := false, true;
    }
  }

  method AddressUsed(entries: map<string, Reservation>, address: Address) returns (b: bool)
    ensures b <==> HasAddress(entries, address)
  {
    var todo := entries.Keys;
    while todo != {}
      invariant todo <= entries.Keys
      invariant forall k :: k in entries && k !in todo ==> entries[k].address != address
      decreases todo
    {
      var k :| k in todo;
      if entries[k].address == address {
        return true;
      }
      todo := todo - {k};
    }
    return false;
  }
}
