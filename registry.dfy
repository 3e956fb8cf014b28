/**
 * The package-level registries of cycledata: loaders, creators, stores and
 * clean-expired handlers (cycledata/cycledata_register.go, read back by the
 * getters at the end of cycledata/cycledata.go) and default-expiry functions
 * (cycledata/cycledata_expire_time.go). Each is a two-level table
 * cycle -> type key -> function, where a registered nil function is None.
 */
module Registry {
  import opened GoInt
  import opened Wrappers
  import opened CycleTypes

  type Table<F> = map<CycleType, map<TypeKey, Option<F>>>

  /** The function registered for (c, t), or None (nil) when there is none. */
  function Lookup<F>(m: Table<F>, c: CycleType, t: TypeKey): Option<F>
  {
    if c in m && t in m[c] then m[c][t] else None
  }

  /** Registration: create the inner table when it is missing, then assign. */
  function Insert<F>(m: Table<F>, c: CycleType, t: TypeKey, f: Option<F>): (r: Table<F>)
    ensures r.Keys == m.Keys + {c}
    ensures r[c].Keys == (if c in m then m[c].Keys else {}) + {t}
  {
    var inner := if c in m then m[c] else map[];
    m[c := inner[t := f]]
  }

  /** Last write wins for (c, t); every other (cycle, type) keeps its function. */
  lemma LookupInsert<F>(m: Table<F>, c: CycleType, t: TypeKey, f: Option<F>, c': CycleType, t': TypeKey)
    ensures Lookup(Insert(m, c, t, f), c', t') == if c' == c && t' == t then f else Lookup(m, c', t')
  {
  }

  class Tables {
    var loaders: Table<Loader>
    var creators: Table<Creator>
    var stores: Table<Callback>
    var cleanExpireds: Table<Callback>
    var expireFuncs: Table<ExpireFunc>

    constructor ()
      ensures loaders == map[] && creators == map[] && stores == map[]
      ensures cleanExpireds == map[] && expireFuncs == map[]
    {
      loaders, creators, stores, cleanExpireds, expireFuncs := map[], map[], map[], map[], map[];
    }

    /** `getLoader` */
    function GetLoader(c: CycleType, t: TypeKey): (r: Option<Loader>)
      reads this
      ensures c !in loaders || t !in loaders[c] ==> r.None?
    {
      Lookup(loaders, c, t)
    }

    /** `getCreator` */
    function GetCreator(c: CycleType, t: TypeKey): (r: Option<Creator>)
      reads this
      ensures c !in creators || t !in creators[c] ==> r.None?
    {
      Lookup(creators, c, t)
    }

    /** `getStore` */
    function GetStore(c: CycleType, t: TypeKey): (r: Option<Callback>)
      reads this
      ensures c !in stores || t !in stores[c] ==> r.None?
    {
      Lookup(stores, c, t)
    }

    /** `getCleanExpired` */
    function GetCleanExpired(c: CycleType, t: TypeKey): (r: Option<Callback>)
      reads this
      ensures c !in cleanExpireds || t !in cleanExpireds[c] ==> r.None?
    {
      Lookup(cleanExpireds, c, t)
    }

    /**
     * `DefaultExpireFor`: the registered function's result, and 0 when nothing
     * or nil is registered for (c, t).
     */
    function DefaultExpireFor(c: CycleType, t: TypeKey): Int32
      reads this
    {
      match Lookup(expireFuncs, c, t)
      case None => 0
      case Some(fn) => fn()
    }

    /** `RegisterLoader` */
    method RegisterLoader(c: CycleType, t: TypeKey, f: Option<Loader>)
      modifies this
      ensures loaders == Insert(old(loaders), c, t, f)
      ensures GetLoader(c, t) == f
      ensures forall c', t' :: (c' != c || t' != t) ==> GetLoader(c', t') == old(GetLoader(c', t'))
      ensures creators == old(creators) && stores == old(stores)
      ensures cleanExpireds == old(cleanExpireds) && expireFuncs == old(expireFuncs)
    {
      if c !in loaders {
        var inner: map<TypeKey, Option<Loader>> := map[];
        loaders := loaders[c := inner];
      }
      var updated: map<TypeKey, Option<Loader>> := loaders[c][t := f];
      loaders := loaders[c := updated];
      forall c', t' | c' != c || t' != t ensures GetLoader(c', t') == old(GetLoader(c', t')) {
        LookupInsert(old(loaders), c, t, f, c', t');
      }
    }

    /** `RegisterCreator` */
    method RegisterCreator(c: CycleType, t: TypeKey, f: Option<Creator>)
      modifies this
      ensures creators == Insert(old(creators), c, t, f)
      ensures GetCreator(c, t) == f
      ensures forall c', t' :: (c' != c || t' != t) ==> GetCreator(c', t') == old(GetCreator(c', t'))
      ensures loaders == old(loaders) && stores == old(stores)
      ensures cleanExpireds == old(cleanExpireds) && expireFuncs == old(expireFuncs)
    {
      if c !in creators {
        var inner: map<TypeKey, Option<Creator>> := map[];
        creators := creators[c := inner];
      }
      var updated: map<TypeKey, Option<Creator>> := creators[c][t := f];
      creators := creators[c := updated];
      forall c', t' | c' != c || t' != t ensures GetCreator(c', t') == old(GetCreator(c', t')) {
        LookupInsert(old(creators), c, t, f, c', t');
      }
    }

    /** `RegisterStorer` */
    method RegisterStorer(c: CycleType, t: TypeKey, f: Option<Callback>)
      modifies this
      ensures stores == Insert(old(stores), c, t, f)
      ensures GetStore(c, t) == f
      ensures forall c', t' :: (c' != c || t' != t) ==> GetStore(c', t') == old(GetStore(c', t'))
      ensures loaders == old(loaders) && creators == old(creators)
      ensures cleanExpireds == old(cleanExpireds) && expireFuncs == old(expireFuncs)
    {
      if c !in stores {
        var inner: map<TypeKey, Option<Callback>> := map[];
        stores := stores[c := inner];
      }
      var updated: map<TypeKey, Option<Callback>> := stores[c][t := f];
      stores := stores[c := updated];
      forall c', t' | c' != c || t' != t ensures GetStore(c', t') == old(GetStore(c', t')) {
        LookupInsert(old(stores), c, t, f, c', t');
      }
    }

    /** `RegisterCleanExpired` */
    method RegisterCleanExpired(c: CycleType, t: TypeKey, f: Option<Callback>)
      modifies this
      ensures cleanExpireds == Insert(old(cleanExpireds), c, t, f)
      ensures GetCleanExpired(c, t) == f
      ensures forall c', t' :: (c' != c || t' != t) ==> GetCleanExpired(c', t') == old(GetCleanExpired(c', t'))
      ensures loaders == old(loaders) && creators == old(creators)
      ensures stores == old(stores) && expireFuncs == old(expireFuncs)
    {
      if c !in cleanExpireds {
        var inner: map<TypeKey, Option<Callback>> := map[];
        cleanExpireds := cleanExpireds[c := inner];
      }
      var updated: map<TypeKey, Option<Callback>> := cleanExpireds[c][t := f];
      cleanExpireds := cleanExpireds[c := updated];
      forall c', t' | c' != c || t' != t ensures GetCleanExpired(c', t') == old(GetCleanExpired(c', t')) {
        LookupInsert(old(cleanExpireds), c, t, f, c', t');
      }
    }

    /** `RegisterDefaultExpireFunc` */
    method RegisterDefaultExpireFunc(c: CycleType, t: TypeKey, f: Option<ExpireFunc>)
      modifies this
      ensures expireFuncs == Insert(old(expireFuncs), c, t, f)
      ensures Lookup(expireFuncs, c, t) == f
      ensures forall c', t' :: (c' != c || t' != t) ==> Lookup(expireFuncs, c', t') == old(Lookup(expireFuncs, c', t'))
      ensures DefaultExpireFor(c, t) == if f.Some? then f.value() else 0
      ensures forall c', t' :: (c' != c || t' != t) ==> DefaultExpireFor(c', t') == old(DefaultExpireFor(c', t'))
      ensures loaders == old(loaders) && creators == old(creators)
      ensures stores == old(stores) && cleanExpireds == old(cleanExpireds)
    {
      if c !in expireFuncs {
        var inner: map<TypeKey, Option<ExpireFunc>> := map[];
        expireFuncs := expireFuncs[c := inner];
      }
      var updated: map<TypeKey, Option<ExpireFunc>> := expireFuncs[c][t := f];
      expireFuncs := expireFuncs[c := updated];
      forall c', t' | c' != c || t' != t ensures Lookup(expireFuncs, c', t') == old(Lookup(expireFuncs, c', t')) {
        LookupInsert(old(expireFuncs), c, t, f, c', t');
      }
    }
  }
}
