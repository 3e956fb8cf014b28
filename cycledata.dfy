/**
 * The per-period player-data store of cycledata/cycledata.go (with the public
 * entry points of cycledata/getdata.go and cycledata/cycledata_setdata.go):
 * a handler maps a cycle to a service, a service maps a type key to a
 * collection, and a collection maps a user to a player record. The package
 * registries are passed in as `reg`; the current time is a parameter.
 */
module CycleData {
  import opened GoInt
  import opened Wrappers
  import opened Values
  import opened CycleTypes
  import opened Registry

  /** `PlayerData`: one player's record for one (cycle, type). */
  class Record {
    /** `UserID` and `ExpireTime` are set when the record is built and never written again. */
    const userId: UserID
    const expireTime: Int32
    /** `UpdateTime`, in Unix nanoseconds. */
    var updateTime: int
    var misc: Misc

    constructor FromSeed(s: Seed)
      ensures Snapshot() == s
    {
      userId, updateTime, expireTime, misc := s.userId, s.updateTime, s.expireTime, s.misc;
    }

    /** The record's fields as a value. */
    function Snapshot(): Seed
      reads this
    {
      Seed(userId, updateTime, expireTime, misc)
    }

    /** `PlayerData.update`: set one bag entry and refresh the update time. */
    method Update(key: string, value: Value, now: int)
      modifies this
      ensures misc == old(misc)[key := value] && updateTime == now
    {
      misc := misc[key := value];
      updateTime := now;
    }
  }

  /** The age after which a record counts as cold: one hour (the comment in the source says six). */
  const COLD_AFTER: int := 3600

  /** `time.Unix(now, 0).Add(-1 * time.Hour)`, in nanoseconds: records updated before it are cold. */
  function ColdThreshold(now: Int32): int
  {
    (now - COLD_AFTER) * NANOS_PER_SECOND
  }

  predicate NoDup<T(==)>(s: seq<T>)
  {
    forall i, j :: 0 <= i < j < |s| ==> s[i] != s[j]
  }

  /** The records `cleanCoolData` keeps: those not updated before `threshold`. */
  function HotPart(d: map<UserID, Record>, threshold: int): map<UserID, Record>
    reads d.Values
  {
    map u | u in d && d[u].updateTime >= threshold :: d[u]
  }

  /** The records `cleanExpired` keeps once a handler is registered: those with no expiry. */
  function Permanent(d: map<UserID, Record>): map<UserID, Record>
  {
    map u | u in d && d[u].expireTime == 0 :: d[u]
  }

  /** What a collection holds after `cleanExpired` for (c, t). */
  function AfterCleanExpired(reg: Tables, c: CycleType, t: TypeKey, d: map<UserID, Record>): map<UserID, Record>
    reads reg
  {
    if reg.GetCleanExpired(c, t).None? then d else Permanent(d)
  }

  /** What a collection holds after `cleanCoolData(now)` for (c, t). */
  function AfterCleanCool(reg: Tables, c: CycleType, t: TypeKey, now: Int32, d: map<UserID, Record>): map<UserID, Record>
    reads reg, d.Values
  {
    if reg.GetStore(c, t).None? then d else HotPart(d, ColdThreshold(now))
  }

  /** The users `cleanExpired` hands to the clean-expired handler (and so drops). */
  function ExpiredIds(reg: Tables, c: CycleType, t: TypeKey, d: map<UserID, Record>): set<UserID>
    reads reg
  {
    if reg.GetCleanExpired(c, t).None? then {} else set u | u in d && d[u].expireTime != 0
  }

  /** The users `cleanCoolData(now)` hands to the store (and so drops): not updated for an hour. */
  function StoredIds(reg: Tables, c: CycleType, t: TypeKey, now: Int32, d: map<UserID, Record>): set<UserID>
    reads reg, d.Values
  {
    if reg.GetStore(c, t).None? then {} else set u | u in d && d[u].updateTime < ColdThreshold(now)
  }

  /**
   * The record a lookup miss builds: the loader's when a loader is registered
   * and returns one, otherwise the creator's, otherwise none.
   */
  function Resolve(reg: Tables, c: CycleType, t: TypeKey, u: UserID): (r: Option<Seed>)
    reads reg
    ensures reg.GetLoader(c, t).Some? && reg.GetLoader(c, t).value(c, t, u).Some? ==>
      r == reg.GetLoader(c, t).value(c, t, u)
    ensures (reg.GetLoader(c, t).None? || reg.GetLoader(c, t).value(c, t, u).None?) ==>
      r == (if reg.GetCreator(c, t).Some? then reg.GetCreator(c, t).value(u) else None)
  {
    var loaded := if reg.GetLoader(c, t).Some? then reg.GetLoader(c, t).value(c, t, u) else None;
    if loaded.Some? then loaded
    else if reg.GetCreator(c, t).Some? then reg.GetCreator(c, t).value(u)
    else None
  }

  /** `dataCollection`: the records of one (cycle, type). */
  class Collection {
    var data: map<UserID, Record>
    /** The (cycle, type) this collection was created for. */
    ghost const cycle: CycleType
    ghost const typeKey: TypeKey

    constructor (ghost c: CycleType, ghost t: TypeKey)
      ensures data == map[] && cycle == c && typeKey == t
    {
      data := map[];
      cycle, typeKey := c, t;
    }

    ghost function RecordAt(u: UserID): set<Record>
      reads this
    {
      if u in data then {data[u]} else {}
    }

    /**
     * `dataCollection.get`: a stored record is returned as it is; on a miss the
     * loader's or else the creator's record is stored and returned; nil otherwise.
     */
    method Get(c: CycleType, t: TypeKey, u: UserID, reg: Tables) returns (r: Record?)
      modifies this
      ensures u in old(data) ==> r == old(data)[u] && data == old(data)
      ensures u !in old(data) && Resolve(reg, c, t, u).None? ==> r == null && data == old(data)
      ensures u !in old(data) && Resolve(reg, c, t, u).Some? ==>
        r != null && fresh(r) && r.Snapshot() == Resolve(reg, c, t, u).value && data == old(data)[u := r]
    {
      if u in data {
        return data[u];
      }
      var loader := reg.GetLoader(c, t);
      if loader.Some? {
        var loaded := loader.value(c, t, u);
        if loaded.Some? {
          r := new Record.FromSeed(loaded.value);
          data := data[u := r];
          return;
        }
      }
      var creator := reg.GetCreator(c, t);
      if creator.Some? {
        var created := creator.value(u);
        if created.Some? {
          r := new Record.FromSeed(created.value);
          data := data[u := r];
          return;
        }
      }
      return null;
    }

    /**
     * `dataCollection.set`: an existing record gets `misc` as its whole bag and
     * keeps its times; a missing one is built by the creator only (never the
     * loader), given `misc` and stored; without a creator result nothing changes.
     */
    method Set(c: CycleType, t: TypeKey, u: UserID, misc: Misc, reg: Tables) returns (ok: bool)
      modifies this, RecordAt(u)
      ensures u in old(data) ==> ok && data == old(data)
      ensures u in old(data) ==>
        data[u].misc == misc && data[u].updateTime == old(data[u].updateTime)
      ensures u !in old(data) ==>
        ok == (reg.GetCreator(c, t).Some? && reg.GetCreator(c, t).value(u).Some?)
      ensures u !in old(data) && ok ==>
        u in data && fresh(data[u]) && data == old(data)[u := data[u]] &&
        data[u].Snapshot() == reg.GetCreator(c, t).value(u).value.(misc := misc)
      ensures u !in old(data) && !ok ==> data == old(data)
    {
      if u in data {
        var existing := data[u];
        existing.misc := misc;
        return true;
      }
      var creator := reg.GetCreator(c, t);
      if creator.Some? {
        var created := creator.value(u);
        if created.Some? {
          var rec := new Record.FromSeed(created.value);
          rec.misc := misc;
          data := data[u := rec];
          return true;
        }
      }
      return false;
    }

    /**
     * `dataCollection.cleanCoolData`: with a store registered, every record last
     * updated before now - 1 hour is handed to the store once (the returned
     * users, in visiting order) and evicted whatever the store answers; the
     * others stay. Without a store, or with no records, nothing happens.
     */
    method CleanCoolData(now: Int32, c: CycleType, t: TypeKey, reg: Tables) returns (stored: seq<UserID>)
      modifies this
      ensures data == AfterCleanCool(reg, c, t, now, old(data))
      ensures forall u :: u in stored <==> u in StoredIds(reg, c, t, now, old(data))
      ensures NoDup(stored)
    {
      stored := [];
      var handler := reg.GetStore(c, t);
      if handler.None? || |data| == 0 {
        return;
      }
      var threshold := ColdThreshold(now);
      var hot: map<UserID, Record> := map[];
      var todo := data.Keys;
      while todo != {}
        invariant todo <= data.Keys
        invariant forall u :: u in hot <==> u in data && u !in todo && data[u].updateTime >= threshold
        invariant forall u :: u in hot ==> hot[u] == data[u]
        invariant forall u :: u in stored <==> u in data && u !in todo && data[u].updateTime < threshold
        invariant NoDup(stored)
        decreases |todo|
      {
        var u :| u in todo;
        var rec := data[u];
        if rec.updateTime < threshold {
          stored := stored + [u];
        } else {
          hot := hot[u := rec];
        }
        todo := todo - {u};
      }
      assert hot == HotPart(data, threshold);
      data := hot;
    }

    /**
     * `dataCollection.cleanExpired`: with a clean-expired handler registered,
     * every record whose ExpireTime is non-zero is handed to it once and deleted,
     * whatever `now` is; records with ExpireTime 0 stay. Without a handler
     * nothing is removed. (`now` only feeds a branch that cannot be reached.)
     */
    method CleanExpired(now: Int32, c: CycleType, t: TypeKey, reg: Tables) returns (expired: seq<UserID>)
      modifies this
      ensures data == AfterCleanExpired(reg, c, t, old(data))
      ensures forall u :: u in expired <==> u in ExpiredIds(reg, c, t, old(data))
      ensures NoDup(expired)
    {
      expired := [];
      var handler := reg.GetCleanExpired(c, t);
      if handler.None? || |data| == 0 {
        return;
      }
      ghost var start := data;
      var isDelete := true;
      var todo := data.Keys;
      while todo != {}
        invariant todo <= start.Keys
        invariant forall u :: u in data <==> u in start && (u in todo || start[u].expireTime == 0)
        invariant forall u :: u in data ==> data[u] == start[u]
        invariant forall u :: u in expired <==> u in start && u !in todo && start[u].expireTime != 0
        invariant NoDup(expired)
        invariant isDelete ==> forall u :: u in start && u !in todo ==> start[u].expireTime != 0
        decreases |todo|
      {
        var u :| u in todo;
        todo := todo - {u};
        var rec := data[u];
        if rec.expireTime == 0 {
          if isDelete {
            isDelete := false;
          }
          continue;
        }
        if handler.Some? {
          expired := expired + [u];
          data := map k | k in data && k != u :: data[k];
          continue;
        }
        // The default rule `ExpireTime <= now` below the handler branch is never
        // reached: the handler was found present before the loop.
        assert false;
      }
      if isDelete {
        data := map[];
      }
      assert data == Permanent(start);
    }

    /**
     * `dataCollection.flushAll`: with a store registered, every record is handed
     * to it exactly once (the returned users); nothing is evicted and store
     * errors do not stop the loop. The `stores == nil` guard of the source never
     * holds, because the table is created when the package is initialised.
     */
    method FlushAll(c: CycleType, t: TypeKey, reg: Tables) returns (flushed: seq<UserID>)
      ensures reg.GetStore(c, t).None? ==> flushed == []
      ensures reg.GetStore(c, t).Some? ==> forall u :: u in flushed <==> u in data
      ensures NoDup(flushed)
    {
      flushed := [];
      var todo := data.Keys;
      while todo != {}
        invariant todo <= data.Keys
        invariant reg.GetStore(c, t).None? ==> flushed == []
        invariant reg.GetStore(c, t).Some? ==> forall u :: u in flushed <==> u in data && u !in todo
        invariant NoDup(flushed)
        decreases |todo|
      {
        var u :| u in todo;
        var store := reg.GetStore(c, t);
        if store.Some? {
          flushed := flushed + [u];
        }
        todo := todo - {u};
      }
    }
  }

  /** The elements of `us`, each paired with the key `k` they were found under. */
  function Tagged<K, U>(k: K, us: seq<U>): (r: seq<(K, U)>)
    ensures |r| == |us| && forall i :: 0 <= i < |us| ==> r[i] == (k, us[i])
  {
    if us == [] then [] else [(k, us[0])] + Tagged(k, us[1..])
  }

  /** Appending a batch tagged with a fresh key keeps a trace free of repeats. */
  lemma AppendTaggedNoDup<K, U>(acc: seq<(K, U)>, k: K, us: seq<U>)
    requires NoDup(acc) && NoDup(us)
    requires forall i :: 0 <= i < |acc| ==> acc[i].0 != k
    ensures NoDup(acc + Tagged(k, us))
  {
    var r := acc + Tagged(k, us);
    forall i, j | 0 <= i < j < |r| ensures r[i] != r[j] {
      if j < |acc| {
      } else if i >= |acc| {
        assert r[i] == (k, us[i - |acc|]) && r[j] == (k, us[j - |acc|]);
      } else {
        assert r[i] == acc[i] && r[j].0 == k;
      }
    }
  }

  /** A pair is in a trace extended by a tagged batch iff it was already there or is in the batch. */
  lemma InAppendTagged<K, U>(acc: seq<(K, U)>, k: K, us: seq<U>, p: (K, U))
    ensures p in acc + Tagged(k, us) <==> p in acc || (p.0 == k && p.1 in us)
  {
    var r := acc + Tagged(k, us);
    if p.0 == k && p.1 in us {
      var i :| 0 <= i < |us| && us[i] == p.1;
      assert r[|acc| + i] == p;
    }
  }

  /** `cycleService`: the collections of one cycle. */
  class Service {
    var collections: map<TypeKey, Collection>
    var defaultExpire: Int32
    /** The cycle this service was created for. */
    ghost const cycle: CycleType

    /** `newService` */
    constructor (ghost c: CycleType, expire: Int32)
      ensures collections == map[] && defaultExpire == expire && cycle == c
    {
      collections := map[];
      defaultExpire := expire;
      cycle := c;
    }

    /** Each collection sits under the (cycle, type) it was created for, so no two keys share one. */
    ghost predicate Valid()
      reads this
    {
      forall t :: t in collections ==> collections[t].cycle == cycle && collections[t].typeKey == t
    }

    /** `cycleService.getCollection`: the stored collection, or a new empty one stored under `t`. */
    method GetCollection(t: TypeKey) returns (col: Collection)
      requires Valid()
      modifies this
      ensures Valid() && defaultExpire == old(defaultExpire)
      ensures t in old(collections) ==> col == old(collections)[t] && collections == old(collections)
      ensures t !in old(collections) ==>
        fresh(col) && col.data == map[] && collections == old(collections)[t := col]
    {
      if t in collections {
        return collections[t];
      }
      col := new Collection(cycle, t);
      collections := collections[t := col];
    }

    /** `cycleService.flush`: flush the collection of `t` if there is one; create nothing. */
    method Flush(t: TypeKey, c: CycleType, reg: Tables) returns (flushed: seq<UserID>)
      ensures t !in collections || reg.GetStore(c, t).None? ==> flushed == []
      ensures t in collections && reg.GetStore(c, t).Some? ==>
        forall u :: u in flushed <==> u in collections[t].data
      ensures NoDup(flushed)
    {
      flushed := [];
      if t in collections {
        var col := collections[t];
        flushed := col.FlushAll(c, t, reg);
      }
    }

    /** `cycleService.flushAll`: every record of every type that has a store, once. */
    method FlushAll(c: CycleType, reg: Tables) returns (flushed: seq<(TypeKey, UserID)>)
      ensures forall t, u :: (t, u) in flushed <==>
        t in collections && reg.GetStore(c, t).Some? && u in collections[t].data
      ensures NoDup(flushed)
    {
      flushed := [];
      var todo := collections.Keys;
      while todo != {}
        invariant todo <= collections.Keys
        invariant forall t, u :: (t, u) in flushed <==>
          t in collections && t !in todo && reg.GetStore(c, t).Some? && u in collections[t].data
        invariant forall i :: 0 <= i < |flushed| ==> flushed[i].0 !in todo
        invariant NoDup(flushed)
        decreases |todo|
      {
        var t :| t in todo;
        var col := collections[t];
        var batch := col.FlushAll(c, t, reg);
        AppendTaggedNoDup(flushed, t, batch);
        flushed := flushed + Tagged(t, batch);
        todo := todo - {t};
      }
    }

    /** One turn of the loop of `cleanExpiredData`: clean the collection of `t`, extend the trace. */
    method CleanExpiredOne(c: CycleType, now: Int32, reg: Tables, t: TypeKey, acc: seq<(TypeKey, UserID)>)
      returns (r: seq<(TypeKey, UserID)>)
      requires t in collections && NoDup(acc) && forall i :: 0 <= i < |acc| ==> acc[i].0 != t
      modifies collections[t]
      ensures collections[t].data == old(AfterCleanExpired(reg, c, t, collections[t].data))
      ensures forall p :: p in r <==> p in acc || (p.0 == t && p.1 in old(ExpiredIds(reg, c, t, collections[t].data)))
      ensures |acc| <= |r| && r[..|acc|] == acc && forall i :: |acc| <= i < |r| ==> r[i].0 == t
      ensures NoDup(r)
    {
      var col := collections[t];
      var batch := col.CleanExpired(now, c, t, reg);
      AppendTaggedNoDup(acc, t, batch);
      forall p { InAppendTagged(acc, t, batch, p); }
      r := acc + Tagged(t, batch);
    }

    /** The loop of `cleanExpiredData`: `cleanExpired` on every collection. */
    method CleanExpired(c: CycleType, now: Int32, reg: Tables) returns (expired: seq<(TypeKey, UserID)>)
      requires Valid()
      modifies collections.Values
      ensures forall t :: t in collections ==>
        collections[t].data == old(AfterCleanExpired(reg, c, t, collections[t].data))
      ensures forall t, u :: (t, u) in expired <==>
        t in collections && u in old(ExpiredIds(reg, c, t, collections[t].data))
      ensures NoDup(expired)
    {
      expired := [];
      var todo := collections.Keys;
      while todo != {}
        invariant todo <= collections.Keys
        invariant forall t :: t in collections && t !in todo ==>
          collections[t].data == old(AfterCleanExpired(reg, c, t, collections[t].data))
        invariant forall t :: t in todo ==> collections[t].data == old(collections[t].data)
        invariant forall t, u :: (t, u) in expired <==>
          t in collections && t !in todo && u in old(ExpiredIds(reg, c, t, collections[t].data))
        invariant forall i :: 0 <= i < |expired| ==> expired[i].0 !in todo
        invariant NoDup(expired)
        decreases |todo|
      {
        var t :| t in todo;
        assert ExpiredIds(reg, c, t, collections[t].data) == old(ExpiredIds(reg, c, t, collections[t].data));
        expired := CleanExpiredOne(c, now, reg, t, expired);
        todo := todo - {t};
      }
    }

    /** One turn of the loop of `cycleHandler.cleanCoolData`: evict from the collection of `t`, extend the trace. */
    method CleanCoolOne(c: CycleType, now: Int32, reg: Tables, t: TypeKey, acc: seq<(TypeKey, UserID)>)
      returns (r: seq<(TypeKey, UserID)>)
      requires t in collections && NoDup(acc) && forall i :: 0 <= i < |acc| ==> acc[i].0 != t
      modifies collections[t]
      ensures collections[t].data == old(AfterCleanCool(reg, c, t, now, collections[t].data))
      ensures forall p :: p in r <==> p in acc || (p.0 == t && p.1 in old(StoredIds(reg, c, t, now, collections[t].data)))
      ensures |acc| <= |r| && r[..|acc|] == acc && forall i :: |acc| <= i < |r| ==> r[i].0 == t
      ensures NoDup(r)
    {
      var col := collections[t];
      var batch := col.CleanCoolData(now, c, t, reg);
      AppendTaggedNoDup(acc, t, batch);
      forall p { InAppendTagged(acc, t, batch, p); }
      r := acc + Tagged(t, batch);
    }

    /** The loop of `cycleHandler.cleanCoolData`: `cleanCoolData` on every collection. */
    method CleanCool(c: CycleType, now: Int32, reg: Tables) returns (stored: seq<(TypeKey, UserID)>)
      requires Valid()
      modifies collections.Values
      ensures forall t :: t in collections ==>
        collections[t].data == old(AfterCleanCool(reg, c, t, now, collections[t].data))
      ensures forall t, u :: (t, u) in stored <==>
        t in collections && u in old(StoredIds(reg, c, t, now, collections[t].data))
      ensures NoDup(stored)
    {
      stored := [];
      var todo := collections.Keys;
      while todo != {}
        invariant todo <= collections.Keys
        invariant forall t :: t in collections && t !in todo ==>
          collections[t].data == old(AfterCleanCool(reg, c, t, now, collections[t].data))
        invariant forall t :: t in todo ==> collections[t].data == old(collections[t].data)
        invariant forall t, u :: (t, u) in stored <==>
          t in collections && t !in todo && u in old(StoredIds(reg, c, t, now, collections[t].data))
        invariant forall i :: 0 <= i < |stored| ==> stored[i].0 !in todo
        invariant NoDup(stored)
        decreases |todo|
      {
        var t :| t in todo;
        assert StoredIds(reg, c, t, now, collections[t].data) == old(StoredIds(reg, c, t, now, collections[t].data));
        assert AfterCleanCool(reg, c, t, now, collections[t].data) == old(AfterCleanCool(reg, c, t, now, collections[t].data));
        stored := CleanCoolOne(c, now, reg, t, stored);
        todo := todo - {t};
      }
    }
  }

  /** `cycleHandler`: the services of every cycle (the package's `globalHandler`). */
  class Handler {
    var services: map<CycleType, Service>

    constructor ()
      ensures services == map[] && Valid()
    {
      services := map[];
    }

    /** Each service sits under its own cycle and is itself valid. */
    ghost predicate Valid()
      reads this, services.Values
    {
      forall c :: c in services ==> services[c].cycle == c && services[c].Valid()
    }

    ghost function ServiceAt(c: CycleType): set<Service>
      reads this
    {
      if c in services then {services[c]} else {}
    }

    ghost function CollectionsOf(c: CycleType): map<TypeKey, Collection>
      reads this, ServiceAt(c)
    {
      if c in services then services[c].collections else map[]
    }

    ghost function CollectionAt(c: CycleType, t: TypeKey): set<Collection>
      reads this, ServiceAt(c)
    {
      if t in CollectionsOf(c) then {CollectionsOf(c)[t]} else {}
    }

    /** The records stored for (c, t); empty when the service or collection is missing. */
    ghost function DataAt(c: CycleType, t: TypeKey): map<UserID, Record>
      reads this, ServiceAt(c), CollectionAt(c, t)
    {
      if t in CollectionsOf(c) then CollectionsOf(c)[t].data else map[]
    }

    ghost function RecordAt(c: CycleType, t: TypeKey, u: UserID): set<Record>
      reads this, ServiceAt(c), CollectionAt(c, t)
    {
      if u in DataAt(c, t) then {DataAt(c, t)[u]} else {}
    }

    /**
     * `cycleHandler.getService`: the stored service, or a new one with default
     * expiry `expire`; an existing service keeps its own default expiry.
     */
    method GetService(c: CycleType, expire: Int32) returns (s: Service)
      requires Valid()
      modifies this
      ensures Valid()
      ensures c in old(services) ==> s == old(services)[c] && services == old(services)
      ensures c !in old(services) ==>
        fresh(s) && s.collections == map[] && s.defaultExpire == expire && services == old(services)[c := s]
    {
      if c in services {
        return services[c];
      }
      s := new Service(c, expire);
      services := services[c := s];
    }

    /**
     * `GetData`: getService, then getCollection, then get. The service and the
     * collection are created even when no record is found.
     */
    method GetData(c: CycleType, t: TypeKey, u: UserID, reg: Tables) returns (r: Record?)
      requires Valid()
      modifies this, ServiceAt(c), CollectionAt(c, t)
      ensures Valid()
      ensures services.Keys == old(services.Keys) + {c} && t in services[c].collections
      ensures forall c' :: c' in old(services) ==> services[c'] == old(services[c'])
      ensures c !in old(services) ==> services[c].defaultExpire == reg.DefaultExpireFor(c, t)
      ensures c in old(services) ==> services[c].defaultExpire == old(services[c].defaultExpire)
      ensures services[c].collections == old(CollectionsOf(c))[t := services[c].collections[t]]
      ensures t in old(CollectionsOf(c)) ==> services[c].collections[t] == old(CollectionsOf(c))[t]
      ensures u in old(DataAt(c, t)) ==> r == old(DataAt(c, t))[u] && DataAt(c, t) == old(DataAt(c, t))
      ensures u !in old(DataAt(c, t)) && Resolve(reg, c, t, u).None? ==>
        r == null && DataAt(c, t) == old(DataAt(c, t))
      ensures u !in old(DataAt(c, t)) && Resolve(reg, c, t, u).Some? ==>
        r != null && fresh(r) && r.Snapshot() == Resolve(reg, c, t, u).value &&
        DataAt(c, t) == old(DataAt(c, t))[u := r]
    {
      var s := GetService(c, reg.DefaultExpireFor(c, t));
      var col := s.GetCollection(t);
      r := col.Get(c, t, u, reg);
    }

    /**
     * `GetDataValue`: a copy of the record's bag, or an empty map when there is
     * no record. It runs `GetData`, so it leaves the store as `GetData` does.
     */
    method GetDataValue(c: CycleType, t: TypeKey, u: UserID, reg: Tables) returns (m: Misc)
      requires Valid()
      modifies this, ServiceAt(c), CollectionAt(c, t)
      ensures Valid()
      ensures services.Keys == old(services.Keys) + {c} && t in services[c].collections
      ensures forall c' :: c' in old(services) ==> services[c'] == old(services[c'])
      ensures c !in old(services) ==> services[c].defaultExpire == reg.DefaultExpireFor(c, t)
      ensures c in old(services) ==> services[c].defaultExpire == old(services[c].defaultExpire)
      ensures services[c].collections == old(CollectionsOf(c))[t := services[c].collections[t]]
      ensures t in old(CollectionsOf(c)) ==> services[c].collections[t] == old(CollectionsOf(c))[t]
      ensures u in old(DataAt(c, t)) || Resolve(reg, c, t, u).None? ==> DataAt(c, t) == old(DataAt(c, t))
      ensures u !in old(DataAt(c, t)) && Resolve(reg, c, t, u).Some? ==>
        u in DataAt(c, t) && fresh(DataAt(c, t)[u]) && DataAt(c, t)[u].Snapshot() == Resolve(reg, c, t, u).value &&
        DataAt(c, t) == old(DataAt(c, t))[u := DataAt(c, t)[u]]
      ensures u in old(DataAt(c, t)) ==> m == old(DataAt(c, t)[u].misc)
      ensures u !in old(DataAt(c, t)) ==>
        m == if Resolve(reg, c, t, u).Some? then Resolve(reg, c, t, u).value.misc else map[]
    {
      var r := GetData(c, t, u, reg);
      if r == null {
        return map[];
      }
      m := r.misc;
    }

    /** `SetData`: getService, then getCollection, then set. */
    method SetData(c: CycleType, t: TypeKey, u: UserID, misc: Misc, reg: Tables) returns (ok: bool)
      requires Valid()
      modifies this, ServiceAt(c), CollectionAt(c, t), RecordAt(c, t, u)
      ensures Valid()
      ensures services.Keys == old(services.Keys) + {c} && t in services[c].collections
      ensures forall c' :: c' in old(services) ==> services[c'] == old(services[c'])
      ensures c !in old(services) ==> services[c].defaultExpire == reg.DefaultExpireFor(c, t)
      ensures c in old(services) ==> services[c].defaultExpire == old(services[c].defaultExpire)
      ensures services[c].collections == old(CollectionsOf(c))[t := services[c].collections[t]]
      ensures t in old(CollectionsOf(c)) ==> services[c].collections[t] == old(CollectionsOf(c))[t]
      ensures u in old(DataAt(c, t)) ==> ok && DataAt(c, t) == old(DataAt(c, t))
      ensures u in old(DataAt(c, t)) ==>
        DataAt(c, t)[u].misc == misc && DataAt(c, t)[u].updateTime == old(DataAt(c, t)[u].updateTime)
      ensures u !in old(DataAt(c, t)) ==>
        ok == (reg.GetCreator(c, t).Some? && reg.GetCreator(c, t).value(u).Some?)
      ensures u !in old(DataAt(c, t)) && ok ==>
        u in DataAt(c, t) && fresh(DataAt(c, t)[u]) && DataAt(c, t) == old(DataAt(c, t))[u := DataAt(c, t)[u]] &&
        DataAt(c, t)[u].Snapshot() == reg.GetCreator(c, t).value(u).value.(misc := misc)
      ensures u !in old(DataAt(c, t)) && !ok ==> DataAt(c, t) == old(DataAt(c, t))
    {
      var s := GetService(c, reg.DefaultExpireFor(c, t));
      var col := s.GetCollection(t);
      ok := col.Set(c, t, u, misc, reg);
    }

    /**
     * `Flush`: getService (creating the service when missing), then flush the
     * collection of `t` if it exists.
     */
    method Flush(c: CycleType, t: TypeKey, reg: Tables) returns (flushed: seq<UserID>)
      requires Valid()
      modifies this
      ensures Valid()
      ensures services.Keys == old(services.Keys) + {c}
      ensures forall c' :: c' in old(services) ==> services[c'] == old(services[c'])
      ensures c !in old(services) ==>
        services[c].collections == map[] && services[c].defaultExpire == reg.DefaultExpireFor(c, t)
      ensures t !in CollectionsOf(c) || reg.GetStore(c, t).None? ==> flushed == []
      ensures t in CollectionsOf(c) && reg.GetStore(c, t).Some? ==>
        forall u :: u in flushed <==> u in DataAt(c, t)
      ensures NoDup(flushed)
    {
      var s := GetService(c, reg.DefaultExpireFor(c, t));
      flushed := s.Flush(t, c, reg);
    }

    /** `FlushAll`: every record of every (cycle, type) that has a store, once. */
    method FlushAll(reg: Tables) returns (flushed: seq<(CycleType, (TypeKey, UserID))>)
      ensures forall c, t, u :: (c, (t, u)) in flushed <==>
        c in services && t in services[c].collections && reg.GetStore(c, t).Some? &&
        u in services[c].collections[t].data
      ensures NoDup(flushed)
    {
      flushed := [];
      var todo := services.Keys;
      while todo != {}
        invariant todo <= services.Keys
        invariant forall c, t, u :: (c, (t, u)) in flushed <==>
          c in services && c !in todo && t in services[c].collections && reg.GetStore(c, t).Some? &&
          u in services[c].collections[t].data
        invariant forall i :: 0 <= i < |flushed| ==> flushed[i].0 !in todo
        invariant NoDup(flushed)
        decreases |todo|
      {
        var c :| c in todo;
        var s := services[c];
        var batch := s.FlushAll(c, reg);
        AppendTaggedNoDup(flushed, c, batch);
        flushed := flushed + Tagged(c, batch);
        todo := todo - {c};
      }
    }

    /**
     * `cleanExpiredDataByType`: clean the collection of (c, t) with the current
     * time narrowed to int32; nothing is created when the service or the
     * collection is missing.
     */
    method CleanExpiredDataByType(c: CycleType, t: TypeKey, nowUnix: Int64, reg: Tables) returns (expired: seq<UserID>)
      modifies CollectionAt(c, t)
      ensures DataAt(c, t) == AfterCleanExpired(reg, c, t, old(DataAt(c, t)))
      ensures forall u :: u in expired <==> u in ExpiredIds(reg, c, t, old(DataAt(c, t)))
      ensures NoDup(expired)
    {
      expired := [];
      if c !in services {
        return;
      }
      var service := services[c];
      if t !in service.collections {
        return;
      }
      var col := service.collections[t];
      var timestamp := Wrap32(nowUnix);
      expired := col.CleanExpired(timestamp, c, t, reg);
    }

    /** `cleanExpiredData`: `cleanExpired` on every collection of cycle `c`. */
    method CleanExpiredData(c: CycleType, nowUnix: Int64, reg: Tables) returns (expired: seq<(TypeKey, UserID)>)
      requires Valid()
      modifies CollectionsOf(c).Values
      ensures forall t :: t in CollectionsOf(c) ==>
        CollectionsOf(c)[t].data == AfterCleanExpired(reg, c, t, old(CollectionsOf(c)[t].data))
      ensures forall t, u :: (t, u) in expired <==>
        t in CollectionsOf(c) && u in ExpiredIds(reg, c, t, old(CollectionsOf(c)[t].data))
      ensures NoDup(expired)
    {
      expired := [];
      if c !in services {
        return;
      }
      var service := services[c];
      var timestamp := Wrap32(nowUnix);
      expired := service.CleanExpired(c, timestamp, reg);
    }

    /** `cycleHandler.cleanCoolData`: `cleanCoolData` on every collection of cycle `c`. */
    method CleanCoolData(c: CycleType, nowUnix: Int64, reg: Tables) returns (stored: seq<(TypeKey, UserID)>)
      requires Valid()
      modifies CollectionsOf(c).Values
      ensures forall t :: t in CollectionsOf(c) ==>
        CollectionsOf(c)[t].data == AfterCleanCool(reg, c, t, Wrap32(nowUnix), old(CollectionsOf(c)[t].data))
      ensures forall t, u :: (t, u) in stored <==>
        t in CollectionsOf(c) && u in StoredIds(reg, c, t, Wrap32(nowUnix), old(CollectionsOf(c)[t].data))
      ensures NoDup(stored)
    {
      stored := [];
      if c !in services {
        return;
      }
      var service := services[c];
      var timestamp := Wrap32(nowUnix);
      stored := service.CleanCool(c, timestamp, reg);
    }

    ghost function AllCollections(): set<Collection>
      reads this, services.Values
    {
      set c, t | c in services && t in services[c].collections :: services[c].collections[t]
    }

    /** Distinct cycles never share a collection. */
    lemma OtherCycleApart(c: CycleType, c': CycleType, t': TypeKey)
      requires Valid() && c' in services && c' != c && t' in services[c'].collections
      ensures services[c'].collections[t'] !in CollectionsOf(c).Values
    {
      if c in services {
        forall x | x in CollectionsOf(c).Values
          ensures x.cycle == c
        {
          var t :| t in services[c].collections && services[c].collections[t] == x;
        }
      }
    }

    /**
     * One tick of the hourly cleanup routine: `cleanExpiredData` for every
     * cycle. Cold-data eviction is not part of it.
     */
    method SweepTick(nowUnix: Int64, reg: Tables)
      requires Valid()
      modifies AllCollections()
      ensures forall c, t :: c in services && t in services[c].collections ==>
        services[c].collections[t].data == AfterCleanExpired(reg, c, t, old(services[c].collections[t].data))
    {
      var todo := services.Keys;
      while todo != {}
        invariant todo <= services.Keys
        invariant forall c, t :: c in services && c !in todo && t in services[c].collections ==>
          services[c].collections[t].data == old(AfterCleanExpired(reg, c, t, services[c].collections[t].data))
        invariant forall c, t :: c in todo && t in services[c].collections ==>
          services[c].collections[t].data == old(services[c].collections[t].data)
        decreases |todo|
      {
        var c :| c in todo;
        forall c', t' | c' in services && c' != c && t' in services[c'].collections {
          OtherCycleApart(c, c', t');
        }
        assert CollectionsOf(c) == services[c].collections;
        var _ := CleanExpiredData(c, nowUnix, reg);
        todo := todo - {c};
      }
    }
  }
}
