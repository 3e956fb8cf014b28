/**
 * The statistic manager (statistic/statistic_mgr.go,
 * statistic/statistic_register_api.go, statistic/statistic_worker_api.go):
 * per-handler category lists, a per-handler query function whose non-empty
 * answers are cached, and the worker -> static function pipeline.
 *
 * The state is two maps. Each transition is a function on them; the
 * `Manager` class holds the maps and its methods are proved to perform
 * exactly those transitions.
 */
module Statistic {
  import opened GoInt
  import opened Wrappers

  type HandlerId = Int32
  type StatType = Int32
  type Category = Int32

  /** `func(statType) []StatisticTypeCategory` */
  type QueryFunc = StatType -> seq<Category>

  /** `func(statType, categories, addValue) []StatisticTypeCategory` */
  type WorkerFunc = (StatType, seq<Category>, Int32) -> seq<Category>

  /**
   * What a static function leaves in the elements of the slice it is passed.
   * It can write the elements but not change the length its caller sees.
   */
  type SliceWrite = f: (StatType, seq<Category>, Int32) -> seq<Category> | forall t, c, v :: |f(t, c, v)| == |c|
    witness (t: StatType, c: seq<Category>, v: Int32) => c

  /**
   * A static function returns nothing. The model records the calls made to it,
   * and `writes` is what it does to its argument's elements: when no worker is
   * set, Go passes it the stored slice itself, so those writes reach the list.
   */
  datatype StaticFunc = StaticFunc(id: nat, writes: SliceWrite)

  /** A static double function; only its calls are recorded. */
  datatype DoubleFunc = DoubleFunc(id: nat)

  /** `handlerInfo`; a nil function is None. */
  datatype Info = Info(
    workerFunc: Option<WorkerFunc>,
    staticFunc: Option<StaticFunc>,
    staticDoubleFunc: Option<DoubleFunc>,
    staticInfo: map<StatType, seq<Category>>)

  /** The entry every operation creates for a handler it does not know yet. */
  const EmptyInfo: Info := Info(None, None, None, map[])

  type Registries = map<HandlerId, Info>
  type QueryFuncs = map<HandlerId, Option<QueryFunc>>

  /** A call of a static function: `staticFunc(t, categories, addValue)`. */
  datatype StaticCall = StaticCall(fn: StaticFunc, t: StatType, categories: seq<Category>, addValue: Int32)

  /** A call of a static double function. */
  datatype DoubleCall = DoubleCall(fn: DoubleFunc, t: StatType, categories: seq<Category>, addValue: Int32, otherValue: Int32)

  /** The handler's entry, or the one that lazy creation would make. */
  function InfoOf(regs: Registries, h: HandlerId): Info
  {
    if h in regs then regs[h] else EmptyInfo
  }

  /** The list stored for (h, t); a missing list reads as the nil (empty) slice. */
  function Listed(regs: Registries, h: HandlerId, t: StatType): seq<Category>
  {
    var info := InfoOf(regs, h);
    if t in info.staticInfo then info.staticInfo[t] else []
  }

  /** The query function registered for h, None when there is none or it is nil. */
  function QueryOf(qs: QueryFuncs, h: HandlerId): Option<QueryFunc>
  {
    if h in qs then qs[h] else None
  }

  /** The registries with `info` as the entry of h, which is created when missing. */
  function Touch(regs: Registries, h: HandlerId, info: Info): (r: Registries)
    ensures r.Keys == regs.Keys + {h}
    ensures forall h' :: h' in regs && h' != h ==> r[h'] == regs[h']
  {
    regs[h := info]
  }

  // ---------------------------------------------------------------------------
  // Registration.
  // ---------------------------------------------------------------------------

  /** `RegisterCategories`: append to the list of (h, t). */
  function AppendCategories(regs: Registries, h: HandlerId, t: StatType, cats: seq<Category>): (r: Registries)
    ensures r.Keys == regs.Keys + {h}
  {
    var info := InfoOf(regs, h);
    Touch(regs, h, info.(staticInfo := info.staticInfo[t := Listed(regs, h, t) + cats]))
  }

  /** `ResetRegisterCategories`: replace the list of (h, t). */
  function ResetCategories(regs: Registries, h: HandlerId, t: StatType, cats: seq<Category>): (r: Registries)
    ensures r.Keys == regs.Keys + {h}
  {
    var info := InfoOf(regs, h);
    Touch(regs, h, info.(staticInfo := info.staticInfo[t := cats]))
  }

  /** `RegisterWorkerFunc` */
  function SetWorker(regs: Registries, h: HandlerId, f: Option<WorkerFunc>): (r: Registries)
    ensures r.Keys == regs.Keys + {h}
  {
    Touch(regs, h, InfoOf(regs, h).(workerFunc := f))
  }

  /** `RegisterStaticFunc` */
  function SetStatic(regs: Registries, h: HandlerId, f: Option<StaticFunc>): (r: Registries)
    ensures r.Keys == regs.Keys + {h}
  {
    Touch(regs, h, InfoOf(regs, h).(staticFunc := f))
  }

  /**
   * Appending: the list of (h, t) grows by exactly `cats` at its end and every
   * other list stays as it was; the functions of every handler are kept.
   */
  lemma AppendCategoriesLists(regs: Registries, h: HandlerId, t: StatType, cats: seq<Category>, h': HandlerId, t': StatType)
    ensures Listed(AppendCategories(regs, h, t, cats), h', t') ==
      if h' == h && t' == t then Listed(regs, h, t) + cats else Listed(regs, h', t')
    ensures var i, i' := InfoOf(AppendCategories(regs, h, t, cats), h'), InfoOf(regs, h');
      i.workerFunc == i'.workerFunc && i.staticFunc == i'.staticFunc && i.staticDoubleFunc == i'.staticDoubleFunc
  {
  }

  /** Resetting: the list of (h, t) is `cats` and nothing else changes. */
  lemma ResetCategoriesLists(regs: Registries, h: HandlerId, t: StatType, cats: seq<Category>, h': HandlerId, t': StatType)
    ensures Listed(ResetCategories(regs, h, t, cats), h', t') ==
      if h' == h && t' == t then cats else Listed(regs, h', t')
    ensures var i, i' := InfoOf(ResetCategories(regs, h, t, cats), h'), InfoOf(regs, h');
      i.workerFunc == i'.workerFunc && i.staticFunc == i'.staticFunc && i.staticDoubleFunc == i'.staticDoubleFunc
  {
  }

  /** Resetting after any appends leaves just the new list. */
  lemma ResetOverridesAppend(regs: Registries, h: HandlerId, t: StatType, a: seq<Category>, b: seq<Category>)
    ensures Listed(ResetCategories(AppendCategories(regs, h, t, a), h, t, b), h, t) == b
    ensures Listed(AppendCategories(ResetCategories(regs, h, t, a), h, t, b), h, t) == a + b
  {
  }

  /**
   * Registering on an unknown handler creates its entry first: no functions
   * and only what that registration put there.
   */
  lemma RegisterCreatesEntry(regs: Registries, h: HandlerId, t: StatType, cats: seq<Category>,
                             w: Option<WorkerFunc>, s: Option<StaticFunc>)
    requires h !in regs
    ensures AppendCategories(regs, h, t, cats)[h] == Info(None, None, None, map[t := cats])
    ensures ResetCategories(regs, h, t, cats)[h] == Info(None, None, None, map[t := cats])
    ensures SetWorker(regs, h, w)[h] == Info(w, None, None, map[])
    ensures SetStatic(regs, h, s)[h] == Info(None, s, None, map[])
  {
    assert [] + cats == cats;
  }

  /** Setting a function changes that field of that handler only; the lists stay. */
  lemma SetFuncKeepsLists(regs: Registries, h: HandlerId, w: Option<WorkerFunc>, s: Option<StaticFunc>, h': HandlerId, t': StatType)
    ensures Listed(SetWorker(regs, h, w), h', t') == Listed(regs, h', t')
    ensures Listed(SetStatic(regs, h, s), h', t') == Listed(regs, h', t')
    ensures InfoOf(SetWorker(regs, h, w), h').workerFunc == if h' == h then w else InfoOf(regs, h').workerFunc
    ensures InfoOf(SetWorker(regs, h, w), h').staticFunc == InfoOf(regs, h').staticFunc
    ensures InfoOf(SetStatic(regs, h, s), h').staticFunc == if h' == h then s else InfoOf(regs, h').staticFunc
    ensures InfoOf(SetStatic(regs, h, s), h').workerFunc == InfoOf(regs, h').workerFunc
  {
  }

  /** `RegisterQueryFunc`: last write wins for h, the other handlers keep theirs. */
  lemma QueryFuncLastWins(qs: QueryFuncs, h: HandlerId, f: Option<QueryFunc>, g: Option<QueryFunc>, h': HandlerId)
    ensures QueryOf(qs[h := f][h := g], h') == QueryOf(qs[h := g], h')
    ensures QueryOf(qs[h := g], h') == if h' == h then g else QueryOf(qs, h')
  {
  }

  // ---------------------------------------------------------------------------
  // GetCategories.
  // ---------------------------------------------------------------------------

  /** A non-empty list is stored for (h, t). */
  predicate StaticHit(regs: Registries, h: HandlerId, t: StatType)
  {
    |Listed(regs, h, t)| > 0
  }

  /** `GetCategories` calls the query function: nothing is stored and one is registered. */
  predicate GetQueries(regs: Registries, qs: QueryFuncs, h: HandlerId, t: StatType)
  {
    !StaticHit(regs, h, t) && QueryOf(qs, h).Some?
  }

  /** What `GetCategories` returns; nil is the empty sequence. */
  function CategoriesOf(regs: Registries, qs: QueryFuncs, h: HandlerId, t: StatType): seq<Category>
  {
    if StaticHit(regs, h, t) then Listed(regs, h, t)
    else if QueryOf(qs, h).None? then []
    else QueryOf(qs, h).value(t)
  }

  /** Caching a query result: create the entry if needed, then store only where no list exists. */
  function CacheQueried(regs: Registries, h: HandlerId, t: StatType, cats: seq<Category>): (r: Registries)
    ensures r.Keys == regs.Keys + {h}
  {
    var info := InfoOf(regs, h);
    if t in info.staticInfo then Touch(regs, h, info)
    else Touch(regs, h, info.(staticInfo := info.staticInfo[t := cats]))
  }

  /** The registries after `GetCategories`. */
  function AfterGet(regs: Registries, qs: QueryFuncs, h: HandlerId, t: StatType): Registries
  {
    if !GetQueries(regs, qs, h, t) then regs
    else
      var cats := QueryOf(qs, h).value(t);
      if |cats| == 0 then regs else CacheQueried(regs, h, t, cats)
  }

  /** A stored non-empty list is returned as it is, without a query and without a change. */
  lemma GetStaticHit(regs: Registries, qs: QueryFuncs, h: HandlerId, t: StatType)
    requires StaticHit(regs, h, t)
    ensures CategoriesOf(regs, qs, h, t) == Listed(regs, h, t) && |CategoriesOf(regs, qs, h, t)| > 0
    ensures !GetQueries(regs, qs, h, t) && AfterGet(regs, qs, h, t) == regs
  {
  }

  /** With nothing stored and no query function the answer is nil and nothing changes. */
  lemma GetWithoutQuery(regs: Registries, qs: QueryFuncs, h: HandlerId, t: StatType)
    requires !StaticHit(regs, h, t) && QueryOf(qs, h).None?
    ensures CategoriesOf(regs, qs, h, t) == [] && AfterGet(regs, qs, h, t) == regs
  {
  }

  /** An empty query answer is returned as nil and nothing is cached. */
  lemma GetEmptyAnswer(regs: Registries, qs: QueryFuncs, h: HandlerId, t: StatType)
    requires GetQueries(regs, qs, h, t) && QueryOf(qs, h).value(t) == []
    ensures CategoriesOf(regs, qs, h, t) == [] && AfterGet(regs, qs, h, t) == regs
  {
  }

  /**
   * A non-empty answer with no list yet for (h, t) is cached: the next call
   * returns the same list without querying and changes nothing.
   */
  lemma GetCachesAnswer(regs: Registries, qs: QueryFuncs, h: HandlerId, t: StatType)
    requires GetQueries(regs, qs, h, t) && |QueryOf(qs, h).value(t)| > 0
    requires t !in InfoOf(regs, h).staticInfo
    ensures var after := AfterGet(regs, qs, h, t);
      Listed(after, h, t) == CategoriesOf(regs, qs, h, t) == QueryOf(qs, h).value(t) &&
      !GetQueries(after, qs, h, t) &&
      CategoriesOf(after, qs, h, t) == CategoriesOf(regs, qs, h, t) &&
      AfterGet(after, qs, h, t) == after
  {
  }

  /**
   * An empty list already stored for (h, t) is never replaced: the answer is
   * returned but not cached, so every later call queries again.
   */
  lemma GetKeepsEmptyList(regs: Registries, qs: QueryFuncs, h: HandlerId, t: StatType)
    requires h in regs && t in regs[h].staticInfo && regs[h].staticInfo[t] == []
    requires QueryOf(qs, h).Some?
    ensures GetQueries(regs, qs, h, t) && CategoriesOf(regs, qs, h, t) == QueryOf(qs, h).value(t)
    ensures AfterGet(regs, qs, h, t) == regs
  {
  }

  /** Caching only ever adds the list of (h, t); every other list and every function stays. */
  lemma GetOnlyCaches(regs: Registries, qs: QueryFuncs, h: HandlerId, t: StatType, h': HandlerId, t': StatType)
    requires h' != h || t' != t
    ensures Listed(AfterGet(regs, qs, h, t), h', t') == Listed(regs, h', t')
    ensures InfoOf(AfterGet(regs, qs, h, t), h').workerFunc == InfoOf(regs, h').workerFunc
    ensures InfoOf(AfterGet(regs, qs, h, t), h').staticFunc == InfoOf(regs, h').staticFunc
  {
  }

  /**
   * Categories registered for a handler and type that had none are what
   * `GetCategories` returns next, without a query.
   */
  lemma RegisterThenGet(regs: Registries, h: HandlerId, t: StatType, cats: seq<Category>)
    requires Listed(regs, h, t) == [] && |cats| > 0
    ensures var r := AppendCategories(regs, h, t, cats);
      CategoriesOf(r, map[], h, t) == cats && !GetQueries(r, map[], h, t)
  {
    AppendCategoriesLists(regs, h, t, cats, h, t);
    assert [] + cats == cats;
  }

  /** The worker function never takes part in `GetCategories`. */
  lemma GetIgnoresWorker(regs: Registries, qs: QueryFuncs, h: HandlerId, t: StatType, w: Option<WorkerFunc>)
    ensures CategoriesOf(SetWorker(regs, h, w), qs, h, t) == CategoriesOf(regs, qs, h, t)
  {
    SetFuncKeepsLists(regs, h, w, None, h, t);
  }

  // ---------------------------------------------------------------------------
  // ApplyStaticFunc and ApplyStaticDoubleFunc.
  // ---------------------------------------------------------------------------

  /** Step 2 queries only for a handler with no entry at all. */
  predicate ApplyQueries(regs: Registries, qs: QueryFuncs, h: HandlerId)
  {
    h !in regs && QueryOf(qs, h).Some?
  }

  /** The registries after step 2: a non-empty answer creates the entry holding it. */
  function Fallback(regs: Registries, qs: QueryFuncs, h: HandlerId, t: StatType): Registries
  {
    if !ApplyQueries(regs, qs, h) then regs
    else
      var cats := QueryOf(qs, h).value(t);
      if |cats| == 0 then regs else CacheQueried(regs, h, t, cats)
  }

  /** The call `ApplyStaticFunc` makes, if any, after step 2. */
  function StaticCallOf(regs: Registries, qs: QueryFuncs, h: HandlerId, t: StatType, addValue: Int32): Option<StaticCall>
  {
    var r := Fallback(regs, qs, h, t);
    if h !in r then None
    else
      var cats := Listed(r, h, t);
      if |cats| == 0 || r[h].staticFunc.None? then None
      else
        var input := if r[h].workerFunc.Some? then r[h].workerFunc.value(t, cats, addValue) else cats;
        Some(StaticCall(r[h].staticFunc.value, t, input, addValue))
  }

  /** The call `ApplyStaticDoubleFunc` makes, if any; its worker step is not part of the model. */
  function DoubleCallOf(regs: Registries, qs: QueryFuncs, h: HandlerId, t: StatType, addValue: Int32, otherValue: Int32): Option<DoubleCall>
  {
    var r := Fallback(regs, qs, h, t);
    if h !in r then None
    else
      var cats := Listed(r, h, t);
      if |cats| == 0 || r[h].staticDoubleFunc.None? then None
      else Some(DoubleCall(r[h].staticDoubleFunc.value, t, cats, addValue, otherValue))
  }

  /**
   * The registries after `ApplyStaticFunc`: step 2's caching and then, when the
   * static function is called on the stored list itself (no worker is set),
   * the elements it writes into that list.
   */
  function AfterApply(regs: Registries, qs: QueryFuncs, h: HandlerId, t: StatType, addValue: Int32): Registries
  {
    var r := Fallback(regs, qs, h, t);
    var call := StaticCallOf(regs, qs, h, t, addValue);
    if h !in r || call.None? || r[h].workerFunc.Some? then r
    else
      var info := r[h];
      Touch(r, h, info.(staticInfo := info.staticInfo[t := call.value.fn.writes(t, Listed(r, h, t), addValue)]))
  }

  /**
   * `ApplyStaticFunc` changes at most the list of (h, t) beyond step 2's
   * caching: without a worker, a call rewrites that list's elements as the
   * static function writes them and keeps its length; with a worker, or
   * without a call, every list stays. No function of any handler changes.
   */
  lemma ApplyWritesStored(regs: Registries, qs: QueryFuncs, h: HandlerId, t: StatType, addValue: Int32, h': HandlerId, t': StatType)
    ensures var r, call := Fallback(regs, qs, h, t), StaticCallOf(regs, qs, h, t, addValue);
      Listed(AfterApply(regs, qs, h, t, addValue), h', t') ==
        if h' == h && t' == t && call.Some? && InfoOf(r, h).workerFunc.None?
        then call.value.fn.writes(t, Listed(r, h, t), addValue)
        else Listed(r, h', t')
    ensures |Listed(AfterApply(regs, qs, h, t, addValue), h', t')| == |Listed(Fallback(regs, qs, h, t), h', t')|
    ensures var i, i' := InfoOf(AfterApply(regs, qs, h, t, addValue), h'), InfoOf(Fallback(regs, qs, h, t), h');
      i.workerFunc == i'.workerFunc && i.staticFunc == i'.staticFunc && i.staticDoubleFunc == i'.staticDoubleFunc
  {
  }

  /**
   * For a known handler nothing is queried or changed, and the static function
   * is called exactly when it is set and the list is non-empty: on the worker's
   * output when a worker is set, on the stored list itself otherwise.
   */
  lemma ApplyKnownHandler(regs: Registries, qs: QueryFuncs, h: HandlerId, t: StatType, addValue: Int32)
    requires h in regs
    ensures !ApplyQueries(regs, qs, h) && Fallback(regs, qs, h, t) == regs
    ensures StaticCallOf(regs, qs, h, t, addValue).Some? <==> |Listed(regs, h, t)| > 0 && regs[h].staticFunc.Some?
    ensures StaticCallOf(regs, qs, h, t, addValue).Some? ==>
      StaticCallOf(regs, qs, h, t, addValue).value.fn == regs[h].staticFunc.value &&
      StaticCallOf(regs, qs, h, t, addValue).value.categories ==
        (if regs[h].workerFunc.Some? then regs[h].workerFunc.value(t, Listed(regs, h, t), addValue) else Listed(regs, h, t))
  {
  }

  /**
   * For an unknown handler the query answer may be cached, but the entry it
   * creates has no static function, so nothing is ever called.
   */
  lemma ApplyUnknownHandler(regs: Registries, qs: QueryFuncs, h: HandlerId, t: StatType, addValue: Int32)
    requires h !in regs
    ensures StaticCallOf(regs, qs, h, t, addValue) == None
    ensures Fallback(regs, qs, h, t) ==
      if QueryOf(qs, h).Some? && |QueryOf(qs, h).value(t)| > 0
      then regs[h := Info(None, None, None, map[t := QueryOf(qs, h).value(t)])]
      else regs
  {
  }

  /** No operation ever sets a static double function. */
  predicate NoDoubleFuncs(regs: Registries)
  {
    forall h :: h in regs ==> regs[h].staticDoubleFunc.None?
  }

  /** Setting an entry with no double function keeps that so. */
  lemma TouchKeepsNoDoubleFuncs(regs: Registries, h: HandlerId, info: Info)
    requires NoDoubleFuncs(regs) && info.staticDoubleFunc.None?
    ensures NoDoubleFuncs(Touch(regs, h, info))
  {
  }

  /** Every registration keeps that so. */
  lemma RegistrationKeepsNoDoubleFuncs(regs: Registries, h: HandlerId, t: StatType, cats: seq<Category>,
                                       w: Option<WorkerFunc>, s: Option<StaticFunc>)
    requires NoDoubleFuncs(regs)
    ensures NoDoubleFuncs(AppendCategories(regs, h, t, cats)) && NoDoubleFuncs(ResetCategories(regs, h, t, cats))
    ensures NoDoubleFuncs(SetWorker(regs, h, w)) && NoDoubleFuncs(SetStatic(regs, h, s))
  {
    var info := InfoOf(regs, h);
    TouchKeepsNoDoubleFuncs(regs, h, info.(staticInfo := info.staticInfo[t := Listed(regs, h, t) + cats]));
    TouchKeepsNoDoubleFuncs(regs, h, info.(staticInfo := info.staticInfo[t := cats]));
    TouchKeepsNoDoubleFuncs(regs, h, info.(workerFunc := w));
    TouchKeepsNoDoubleFuncs(regs, h, info.(staticFunc := s));
  }

  /** So does caching a query answer. */
  lemma CachingKeepsNoDoubleFuncs(regs: Registries, qs: QueryFuncs, h: HandlerId, t: StatType)
    requires NoDoubleFuncs(regs)
    ensures NoDoubleFuncs(AfterGet(regs, qs, h, t)) && NoDoubleFuncs(Fallback(regs, qs, h, t))
  {
    var info := InfoOf(regs, h);
    TouchKeepsNoDoubleFuncs(regs, h, info);
    if QueryOf(qs, h).Some? {
      TouchKeepsNoDoubleFuncs(regs, h, info.(staticInfo := info.staticInfo[t := QueryOf(qs, h).value(t)]));
    }
  }

  /** So `ApplyStaticDoubleFunc` never calls anything. */
  lemma DoubleNeverCalls(regs: Registries, qs: QueryFuncs, h: HandlerId, t: StatType, addValue: Int32, otherValue: Int32)
    requires NoDoubleFuncs(regs)
    ensures DoubleCallOf(regs, qs, h, t, addValue, otherValue) == None
  {
    CachingKeepsNoDoubleFuncs(regs, qs, h, t);
  }

  // ---------------------------------------------------------------------------
  // The manager.
  // ---------------------------------------------------------------------------

  /** `StatisticManager`; the package-level functions all use one instance of it. */
  class Manager {
    var registries: Registries
    var queryFuncs: QueryFuncs

    predicate Valid()
      reads this
    {
      NoDoubleFuncs(registries)
    }

    /** `NewStatisticManager` */
    constructor ()
      ensures Valid() && registries == map[] && queryFuncs == map[]
    {
      registries, queryFuncs := map[], map[];
    }

    /** The entry of h, created empty when missing. */
    method Entry(h: HandlerId) returns (info: Info)
      requires Valid()
      modifies this
      ensures Valid() && info == InfoOf(old(registries), h)
      ensures registries == old(registries)[h := info] && queryFuncs == old(queryFuncs)
    {
      if h in registries {
        info := registries[h];
      } else {
        info := EmptyInfo;
      }
      registries := registries[h := info];
    }

    method RegisterCategories(h: HandlerId, t: StatType, cats: seq<Category>)
      requires Valid()
      modifies this
      ensures Valid() && registries == AppendCategories(old(registries), h, t, cats) && queryFuncs == old(queryFuncs)
    {
      var info := Entry(h);
      var existing := if t in info.staticInfo then info.staticInfo[t] else [];
      registries := registries[h := info.(staticInfo := info.staticInfo[t := existing + cats])];
    }

    method ResetRegisterCategories(h: HandlerId, t: StatType, cats: seq<Category>)
      requires Valid()
      modifies this
      ensures Valid() && registries == ResetCategories(old(registries), h, t, cats) && queryFuncs == old(queryFuncs)
    {
      var info := Entry(h);
      registries := registries[h := info.(staticInfo := info.staticInfo[t := cats])];
    }

    method RegisterQueryFunc(h: HandlerId, f: Option<QueryFunc>)
      modifies this
      ensures registries == old(registries) && queryFuncs == old(queryFuncs)[h := f]
    {
      queryFuncs := queryFuncs[h := f];
    }

    method RegisterWorkerFunc(h: HandlerId, f: Option<WorkerFunc>)
      requires Valid()
      modifies this
      ensures Valid() && registries == SetWorker(old(registries), h, f) && queryFuncs == old(queryFuncs)
    {
      var info := Entry(h);
      registries := registries[h := info.(workerFunc := f)];
    }

    method RegisterStaticFunc(h: HandlerId, f: Option<StaticFunc>)
      requires Valid()
      modifies this
      ensures Valid() && registries == SetStatic(old(registries), h, f) && queryFuncs == old(queryFuncs)
    {
      var info := Entry(h);
      registries := registries[h := info.(staticFunc := f)];
    }

    /** Cache a non-empty query answer where no list is stored yet. */
    method Cache(h: HandlerId, t: StatType, cats: seq<Category>)
      requires Valid()
      modifies this
      ensures Valid() && registries == CacheQueried(old(registries), h, t, cats) && queryFuncs == old(queryFuncs)
    {
      var info := Entry(h);
      if t !in info.staticInfo {
        registries := registries[h := info.(staticInfo := info.staticInfo[t := cats])];
      }
    }

    /** `GetCategories`; `queried` says whether the query function was called. */
    method GetCategories(h: HandlerId, t: StatType) returns (cats: seq<Category>, queried: bool)
      requires Valid()
      modifies this
      ensures Valid() && queryFuncs == old(queryFuncs)
      ensures cats == CategoriesOf(old(registries), queryFuncs, h, t)
      ensures queried == GetQueries(old(registries), queryFuncs, h, t)
      ensures registries == AfterGet(old(registries), queryFuncs, h, t)
    {
      queried := false;
      if h in registries && t in registries[h].staticInfo && |registries[h].staticInfo[t]| > 0 {
        return registries[h].staticInfo[t], false;
      }
      if h !in queryFuncs || queryFuncs[h].None? {
        return [], false;
      }
      queried := true;
      cats := queryFuncs[h].value(t);
      if |cats| == 0 {
        return [], true;
      }
      Cache(h, t, cats);
    }

    /** Step 2 of the apply functions: query for a handler with no entry. */
    method FallbackStep(h: HandlerId, t: StatType) returns (queried: bool)
      requires Valid()
      modifies this
      ensures Valid() && queryFuncs == old(queryFuncs)
      ensures queried == ApplyQueries(old(registries), queryFuncs, h)
      ensures registries == Fallback(old(registries), queryFuncs, h, t)
    {
      queried := false;
      if h !in registries && h in queryFuncs && queryFuncs[h].Some? {
        queried := true;
        var cats := queryFuncs[h].value(t);
        if |cats| > 0 {
          Cache(h, t, cats);
        }
      }
    }

    /**
     * `ApplyStaticFunc`: the call made to the static function, if any, and the
     * lists after the writes it makes through the stored slice.
     */
    method ApplyStaticFunc(h: HandlerId, t: StatType, addValue: Int32) returns (call: Option<StaticCall>, queried: bool)
      requires Valid()
      modifies this
      ensures Valid() && queryFuncs == old(queryFuncs)
      ensures queried == ApplyQueries(old(registries), queryFuncs, h)
      ensures registries == AfterApply(old(registries), queryFuncs, h, t, addValue)
      ensures call == StaticCallOf(old(registries), queryFuncs, h, t, addValue)
    {
      queried := FallbackStep(h, t);
      if h !in registries {
        return None, queried;
      }
      var info := registries[h];
      var cats := if t in info.staticInfo then info.staticInfo[t] else [];
      if |cats| == 0 || info.staticFunc.None? {
        return None, queried;
      }
      var input := cats;
      if info.workerFunc.Some? {
        input := info.workerFunc.value(t, cats, addValue);
      }
      call := Some(StaticCall(info.staticFunc.value, t, input, addValue));
      if info.workerFunc.None? {
        // The static function was handed the stored slice and writes its elements.
        var written := info.staticFunc.value.writes(t, cats, addValue);
        registries := registries[h := info.(staticInfo := info.staticInfo[t := written])];
      }
    }

    /** `ApplyStaticDoubleFunc`: it may cache a query answer, and never calls anything. */
    method ApplyStaticDoubleFunc(h: HandlerId, t: StatType, addValue: Int32, otherValue: Int32) returns (call: Option<DoubleCall>, queried: bool)
      requires Valid()
      modifies this
      ensures Valid() && queryFuncs == old(queryFuncs)
      ensures queried == ApplyQueries(old(registries), queryFuncs, h)
      ensures registries == Fallback(old(registries), queryFuncs, h, t)
      ensures call == DoubleCallOf(old(registries), queryFuncs, h, t, addValue, otherValue) && call == None
    {
      DoubleNeverCalls(registries, queryFuncs, h, t, addValue, otherValue);
      queried := FallbackStep(h, t);
      // Valid() keeps every staticDoubleFunc nil, so the nil guard always returns here.
      call := None;
    }
  }

  // ---------------------------------------------------------------------------
  // The tests, on the transitions.
  // ---------------------------------------------------------------------------

  /** Handler 1, type 100: registered categories come back as they are. */
  lemma StaticCategoriesVector()
    ensures CategoriesOf(AppendCategories(map[], 1, 100, [10, 20, 30]), map[], 1, 100) == [10, 20, 30]
  {
    RegisterThenGet(map[], 1, 100, [10, 20, 30]);
  }

  /** Handler 2, type 200: the query answer is returned, cached, and not asked for again. */
  lemma QueryCachingVector(q: QueryFunc)
    requires q(200) == [40, 50]
    ensures var qs := map[2 := Some(q)];
      GetQueries(map[], qs, 2, 200) && CategoriesOf(map[], qs, 2, 200) == [40, 50] &&
      !GetQueries(AfterGet(map[], qs, 2, 200), qs, 2, 200) &&
      CategoriesOf(AfterGet(map[], qs, 2, 200), qs, 2, 200) == [40, 50]
  {
    var qs: QueryFuncs := map[2 := Some(q)];
    assert QueryOf(qs, 2) == Some(q);
    GetCachesAnswer(map[], qs, 2, 200);
  }

  /** Handler 3, type 300: a registered worker does not reverse what `GetCategories` returns. */
  lemma WorkerNotAppliedVector(w: WorkerFunc)
    ensures CategoriesOf(SetWorker(AppendCategories(map[], 3, 300, [1, 2, 3]), 3, Some(w)), map[], 3, 300) == [1, 2, 3]
  {
    GetIgnoresWorker(AppendCategories(map[], 3, 300, [1, 2, 3]), map[], 3, 300, Some(w));
    RegisterThenGet(map[], 3, 300, [1, 2, 3]);
  }

  /** The static function of the test: `categories[i] += addValue`, with int32 wrap-around. */
  function AddToEach(t: StatType, c: seq<Category>, v: Int32): (r: seq<Category>)
    ensures |r| == |c| && forall i :: 0 <= i < |c| ==> r[i] == Wrap32(c[i] + v)
  {
    seq(|c|, i requires 0 <= i < |c| => Wrap32(c[i] + v))
  }

  /** `AddToEach` as the writes of a static function. */
  const AddEach: SliceWrite := (t: StatType, c: seq<Category>, v: Int32) => AddToEach(t, c, v)

  /**
   * Handler 1, type 100 with a static function that adds its value to every
   * element: it is called on the stored list, and `GetCategories` afterwards
   * returns the rewritten list [11, 12, 13].
   */
  lemma StaticFuncVector(id: nat)
    ensures var f := StaticFunc(id, AddEach);
      var regs := SetStatic(AppendCategories(map[], 1, 100, [1, 2, 3]), 1, Some(f));
      StaticCallOf(regs, map[], 1, 100, 10) == Some(StaticCall(f, 100, [1, 2, 3], 10)) &&
      CategoriesOf(AfterApply(regs, map[], 1, 100, 10), map[], 1, 100) == [11, 12, 13]
  {
    var f := StaticFunc(id, AddEach);
    var regs := SetStatic(AppendCategories(map[], 1, 100, [1, 2, 3]), 1, Some(f));
    assert Listed(regs, 1, 100) == [1, 2, 3];
    ApplyWritesStored(regs, map[], 1, 100, 10, 1, 100);
    assert AddToEach(100, [1, 2, 3], 10) == [11, 12, 13];
  }
}
